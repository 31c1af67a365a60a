/**
  `DataMasker`: the redaction pass every HTTP text goes through before it
  is sent out. `Mask` threads the text through eight rules in a fixed
  order; for each rule, `MaskPattern` walks the matches of the rule's
  pattern, masks the selected capture group of each match (first four
  characters kept, the rest turned into `*`), copies the text between
  matches unchanged, and files every masked original in `originalValues`
  under `masked_<n>`.

  The rewrite of a single match is parameterised by a `Policy`:
  `AsWritten` rewrites the match text as `String.replace` does in the
  source: it scans from the left, rewrites each occurrence of the selected
  value it meets and resumes after it, so of two overlapping occurrences
  only the left one is rewritten. `InPlace` masks the
  selected group at its own position. Every pipeline property below is
  proved for both.
 */
module DataMasker {
  import opened Options
  import opened Strings
  import opened Keys
  import opened Matching
  import Recognisers

  function Min(a: int, b: int): int {
    if a <= b then a else b
  }

  function Max(a: int, b: int): int {
    if a >= b then a else b
  }

  /** Values longer than this many characters are masked; this many leading characters stay visible. */
  const Reveal: nat := 4

  /** The masked form of a value: the first four characters, then one `*` per remaining character. */
  function MaskValue(v: string): (r: string)
    ensures |r| == |v|
    ensures |v| > Reveal ==> r[..Reveal] == v[..Reveal] && IsStars(r[Reveal..])
    ensures |v| <= Reveal ==> r == v
  {
    v[..Min(Reveal, |v|)] + Stars(Max(0, |v| - Reveal))
  }

  /** Masking only overwrites characters with `*`, and masking a masked value changes nothing. */
  lemma MaskValueStarsAndIdempotent(v: string)
    ensures StarOrSame(v, MaskValue(v))
    ensures MaskValue(MaskValue(v)) == MaskValue(v)
  {
    var r := MaskValue(v);
    if |v| > Reveal {
      assert r == r[..Reveal] + r[Reveal..];
      assert MaskValue(r) == r[..Reveal] + Stars(|r| - Reveal);
    }
  }

  datatype Policy = AsWritten | InPlace

  /** The text of a match: Java's `matcher.group()`. */
  function MatchText(t: string, m: Match): string
    requires m.whole.start <= m.whole.end <= |t|
  {
    t[m.whole.start..m.whole.end]
  }

  /** The value to mask: Java's `matcher.group(k)`, `None` for a group that did not participate. */
  function Selected(t: string, m: Match, k: nat): Option<string>
    requires WellFormedMatch(t, m, k)
  {
    match m.groups[k]
    case None => None
    case Some(g) => Some(t[g.start..g.end])
  }

  /** The guard of the source: a non-null value longer than four characters. */
  predicate Masks(t: string, m: Match, k: nat)
    requires WellFormedMatch(t, m, k)
  {
    Selected(t, m, k).Some? && |Selected(t, m, k).value| > Reveal
  }

  /** The text emitted in place of one match. */
  function MaskedPiece(policy: Policy, t: string, m: Match, k: nat): (piece: string)
    requires WellFormedMatch(t, m, k)
    ensures |piece| == |MatchText(t, m)|
    ensures !Masks(t, m, k) ==> piece == MatchText(t, m)
  {
    var text := MatchText(t, m);
    if !Masks(t, m, k) then text
    else
      var v := Selected(t, m, k).value;
      match policy
      case AsWritten =>
        ReplaceAll(text, v, MaskValue(v))
      case InPlace =>
        var g := m.groups[k].value;
        assert Within(g, m.whole);
        t[m.whole.start..g.start] + MaskValue(v) + t[g.end..m.whole.end]
  }

  /** A piece differs from its match text only by `*` characters. */
  lemma MaskedPieceStarOrSame(policy: Policy, t: string, m: Match, k: nat)
    requires WellFormedMatch(t, m, k)
    ensures StarOrSame(MatchText(t, m), MaskedPiece(policy, t, m, k))
  {
    var text := MatchText(t, m);
    if !Masks(t, m, k) {
      StarOrSameRefl(text);
    } else {
      var v := Selected(t, m, k).value;
      MaskValueStarsAndIdempotent(v);
      if policy.InPlace? {
        var g := m.groups[k].value;
        assert Within(g, m.whole);
        var before, after := t[m.whole.start..g.start], t[g.end..m.whole.end];
        assert text == before + v + after;
        StarOrSameRefl(before);
        StarOrSameRefl(after);
        StarOrSameConcat(before, before, v, MaskValue(v));
        StarOrSameConcat(before + v, before + MaskValue(v), after, after);
      }
    }
  }

  /** The masked text and the `originalValues` map after a pass. */
  datatype Pass = Pass(text: string, store: map<string, string>)

  /** Preconditions of `MaskFrom`: well-formed matches, `pos` at or before the next match. */
  predicate ScanState(t: string, ms: seq<Match>, k: nat, i: nat, pos: nat) {
    && WellFormedMatches(t, ms, k)
    && i <= |ms| && pos <= |t|
    && (i < |ms| ==> pos <= ms[i].whole.start)
  }

  lemma ScanStateNext(t: string, ms: seq<Match>, k: nat, i: nat, pos: nat)
    requires ScanState(t, ms, k, i, pos) && i < |ms|
    ensures WellFormedMatch(t, ms[i], k)
    ensures pos <= ms[i].whole.start
    ensures ScanState(t, ms, k, i + 1, ms[i].whole.end)
    ensures forall j | i < j < |ms| :: ms[i].whole.end <= ms[j].whole.start
  {
  }

  /** The body of the loop for one match: the emitted piece and the map after the optional `put`. */
  function MaskOne(policy: Policy, t: string, m: Match, k: nat, store: map<string, string>): Pass
    requires WellFormedMatch(t, m, k)
  {
    Pass(MaskedPiece(policy, t, m, k), if Masks(t, m, k) then Put(store, Selected(t, m, k).value) else store)
  }

  /**
    The `while (matcher.find())` loop from match `i` on, `pos` being the
    append position: `appendReplacement` copies the text from `pos` to the
    match and then the piece for the match; `appendTail` copies the rest.
    A masked value is filed with `Put` before the next match is handled.
   */
  function MaskFrom(policy: Policy, t: string, ms: seq<Match>, k: nat, i: nat, pos: nat,
                    store: map<string, string>): (r: Pass)
    requires ScanState(t, ms, k, i, pos)
    ensures |r.text| == |t| - pos
    decreases |ms| - i
  {
    if i == |ms| then
      Pass(t[pos..], store)
    else
      ScanStateNext(t, ms, k, i, pos);
      var m := ms[i];
      var one := MaskOne(policy, t, m, k, store);
      var rest := MaskFrom(policy, t, ms, k, i + 1, m.whole.end, one.store);
      Pass(t[pos..m.whole.start] + one.text + rest.text, rest.store)
  }

  /** One rule over the whole text: Java's `maskPattern`, given the matches its pattern finds. */
  function MaskPattern(policy: Policy, t: string, ms: seq<Match>, k: nat, store: map<string, string>): (r: Pass)
    requires WellFormedMatches(t, ms, k)
    ensures |r.text| == |t|
  {
    MaskFrom(policy, t, ms, k, 0, 0, store)
  }

  /** A rule only stars characters of the text. */
  lemma MaskPatternStarOrSame(policy: Policy, t: string, ms: seq<Match>, k: nat, store: map<string, string>)
    requires WellFormedMatches(t, ms, k)
    ensures StarOrSame(t, MaskPattern(policy, t, ms, k, store).text)
  {
    assert t[0..] == t;
    MaskFromStarOrSame(policy, t, ms, k, 0, 0, store);
  }

  /** The values masked from match `i` on, in order. */
  function Values(t: string, ms: seq<Match>, k: nat, i: nat): seq<string>
    requires WellFormedMatches(t, ms, k) && i <= |ms|
    decreases |ms| - i
  {
    if i == |ms| then []
    else
      assert WellFormedMatch(t, ms[i], k);
      (if Masks(t, ms[i], k) then [Selected(t, ms[i], k).value] else []) + Values(t, ms, k, i + 1)
  }

  /** Index `q` lies in none of the matches from `i` on. */
  predicate Outside(ms: seq<Match>, i: nat, q: nat) {
    forall j | i <= j < |ms| :: q < ms[j].whole.start || ms[j].whole.end <= q
  }

  /** One turn of the loop: the gap before match `i`, its piece, then the rest. */
  lemma MaskFromStep(policy: Policy, t: string, ms: seq<Match>, k: nat, i: nat, pos: nat, store: map<string, string>)
    requires ScanState(t, ms, k, i, pos) && i < |ms|
    ensures WellFormedMatch(t, ms[i], k)
    ensures pos <= ms[i].whole.start <= ms[i].whole.end <= |t|
    ensures ScanState(t, ms, k, i + 1, ms[i].whole.end)
    ensures |MaskOne(policy, t, ms[i], k, store).text| == ms[i].whole.end - ms[i].whole.start
    ensures var one := MaskOne(policy, t, ms[i], k, store);
      MaskFrom(policy, t, ms, k, i, pos, store)
      == Pass(t[pos..ms[i].whole.start] + one.text + MaskFrom(policy, t, ms, k, i + 1, ms[i].whole.end, one.store).text,
              MaskFrom(policy, t, ms, k, i + 1, ms[i].whole.end, one.store).store)
  {
    ScanStateNext(t, ms, k, i, pos);
  }

  /** The loop only stars characters: every position keeps its character or becomes `*`. */
  lemma {:induction false} MaskFromStarOrSame(policy: Policy, t: string, ms: seq<Match>, k: nat, i: nat, pos: nat,
                                              store: map<string, string>)
    requires ScanState(t, ms, k, i, pos)
    ensures StarOrSame(t[pos..], MaskFrom(policy, t, ms, k, i, pos, store).text)
    decreases |ms| - i
  {
    if i < |ms| {
      MaskFromStep(policy, t, ms, k, i, pos, store);
      var m := ms[i];
      var one := MaskOne(policy, t, m, k, store);
      MaskFromStarOrSame(policy, t, ms, k, i + 1, m.whole.end, one.store);
      MaskedPieceStarOrSame(policy, t, m, k);
      StarOrSameSplice(t, pos, m.whole.start, m.whole.end, one.text,
                       MaskFrom(policy, t, ms, k, i + 1, m.whole.end, one.store).text);
    } else {
      StarOrSameRefl(t[pos..]);
    }
  }

  /** A slice that lies in the last of three parts. */
  lemma PieceInTail(gap: string, piece: string, rest: string, lo: nat, hi: nat, p: string)
    requires |gap| + |piece| <= lo <= hi <= |gap| + |piece| + |rest|
    requires rest[lo - |gap| - |piece|..hi - |gap| - |piece|] == p
    ensures (gap + piece + rest)[lo..hi] == p
  {
    SliceOfConcat3(gap, piece, rest, lo - |gap| - |piece|, hi - |gap| - |piece|);
  }

  lemma {:induction false} MaskFromPieceAt(policy: Policy, t: string, ms: seq<Match>, k: nat, i: nat, pos: nat,
                                           store: map<string, string>, j: nat)
    requires ScanState(t, ms, k, i, pos) && i <= j < |ms|
    ensures pos <= ms[j].whole.start <= ms[j].whole.end <= |t|
    ensures MaskFrom(policy, t, ms, k, i, pos, store).text[ms[j].whole.start - pos..ms[j].whole.end - pos]
         == MaskedPiece(policy, t, ms[j], k)
    decreases j - i
  {
    MaskFromStep(policy, t, ms, k, i, pos, store);
    var m := ms[i];
    var one := MaskOne(policy, t, m, k, store);
    var rest := MaskFrom(policy, t, ms, k, i + 1, m.whole.end, one.store).text;
    var gap := t[pos..m.whole.start];
    if j == i {
      SliceOfConcat3(gap, one.text, rest, 0, 0);
    } else {
      MaskFromPieceAt(policy, t, ms, k, i + 1, m.whole.end, one.store, j);
      PieceInTail(gap, one.text, rest, ms[j].whole.start - pos, ms[j].whole.end - pos,
                  MaskedPiece(policy, t, ms[j], k));
    }
  }

  lemma {:induction false} MaskFromGapAt(policy: Policy, t: string, ms: seq<Match>, k: nat, i: nat, pos: nat,
                                         store: map<string, string>, q: nat)
    requires ScanState(t, ms, k, i, pos)
    requires pos <= q < |t| && Outside(ms, i, q)
    ensures MaskFrom(policy, t, ms, k, i, pos, store).text[q - pos] == t[q]
    decreases |ms| - i
  {
    var out := MaskFrom(policy, t, ms, k, i, pos, store).text;
    if i < |ms| {
      MaskFromStep(policy, t, ms, k, i, pos, store);
      var m := ms[i];
      var one := MaskOne(policy, t, m, k, store);
      var rest := MaskFrom(policy, t, ms, k, i + 1, m.whole.end, one.store).text;
      var gap := t[pos..m.whole.start];
      assert out == gap + one.text + rest;
      if q >= m.whole.end {
        assert Outside(ms, i + 1, q);
        MaskFromGapAt(policy, t, ms, k, i + 1, m.whole.end, one.store, q);
        assert out[q - pos] == rest[q - m.whole.end];
      } else {
        assert q < m.whole.start;
        assert out[q - pos] == gap[q - pos];
      }
    } else {
      assert out == t[pos..];
    }
  }

  /** The values match `m` contributes: its selected group when it is masked, nothing otherwise. */
  function MatchValues(t: string, m: Match, k: nat): seq<string>
    requires WellFormedMatch(t, m, k)
  {
    if Masks(t, m, k) then [Selected(t, m, k).value] else []
  }

  lemma MaskOneRecords(policy: Policy, t: string, m: Match, k: nat, store: map<string, string>)
    requires WellFormedMatch(t, m, k)
    ensures MaskOne(policy, t, m, k, store).store == PutAll(store, MatchValues(t, m, k))
  {
    if Masks(t, m, k) {
      var v := Selected(t, m, k).value;
      assert PutAll(store, [v]) == PutAll(Put(store, v), []);
    }
  }

  /** A match whose group is absent or at most four characters long is copied and files nothing. */
  lemma MaskOneVerbatim(policy: Policy, t: string, m: Match, k: nat, store: map<string, string>)
    requires WellFormedMatch(t, m, k) && !Masks(t, m, k)
    ensures MaskOne(policy, t, m, k, store) == Pass(MatchText(t, m), store)
    ensures MatchValues(t, m, k) == []
  {
  }

  lemma ValuesStep(t: string, ms: seq<Match>, k: nat, i: nat)
    requires WellFormedMatches(t, ms, k) && i < |ms|
    ensures WellFormedMatch(t, ms[i], k)
    ensures Values(t, ms, k, i) == MatchValues(t, ms[i], k) + Values(t, ms, k, i + 1)
  {
  }

  /** The loop files exactly the masked values, in order, with `Put`. */
  lemma {:induction false} MaskFromPuts(policy: Policy, t: string, ms: seq<Match>, k: nat, i: nat, pos: nat,
                                        store: map<string, string>)
    requires ScanState(t, ms, k, i, pos)
    ensures MaskFrom(policy, t, ms, k, i, pos, store).store == PutAll(store, Values(t, ms, k, i))
    decreases |ms| - i
  {
    if i < |ms| {
      ScanStateNext(t, ms, k, i, pos);
      var m := ms[i];
      var mv := MatchValues(t, m, k);
      var one := MaskOne(policy, t, m, k, store);
      MaskOneRecords(policy, t, m, k, store);
      MaskFromPuts(policy, t, ms, k, i + 1, m.whole.end, one.store);
      ValuesStep(t, ms, k, i);
      PutAllConcat(store, mv, Values(t, ms, k, i + 1));
    } else {
      assert Values(t, ms, k, i) == [];
    }
  }

  lemma {:induction false} MaskFromIgnoresStore(policy: Policy, t: string, ms: seq<Match>, k: nat, i: nat, pos: nat,
                                                s1: map<string, string>, s2: map<string, string>)
    requires ScanState(t, ms, k, i, pos)
    ensures MaskFrom(policy, t, ms, k, i, pos, s1).text == MaskFrom(policy, t, ms, k, i, pos, s2).text
    decreases |ms| - i
  {
    if i < |ms| {
      ScanStateNext(t, ms, k, i, pos);
      var m := ms[i];
      MaskFromIgnoresStore(policy, t, ms, k, i + 1, m.whole.end,
                           MaskOne(policy, t, m, k, s1).store, MaskOne(policy, t, m, k, s2).store);
    }
  }

  /**
    What one rule produces, position by position: each match becomes its
    masked piece and every character outside the matches is copied.
   */
  lemma MaskPatternCharacterisation(policy: Policy, t: string, ms: seq<Match>, k: nat, store: map<string, string>)
    requires WellFormedMatches(t, ms, k)
    ensures forall j | 0 <= j < |ms| ::
      MaskPattern(policy, t, ms, k, store).text[ms[j].whole.start..ms[j].whole.end] == MaskedPiece(policy, t, ms[j], k)
    ensures forall q | 0 <= q < |t| && Outside(ms, 0, q) :: MaskPattern(policy, t, ms, k, store).text[q] == t[q]
  {
    MaskPatternPieces(policy, t, ms, k, store);
    MaskPatternGaps(policy, t, ms, k, store);
  }

  lemma MaskPatternPieces(policy: Policy, t: string, ms: seq<Match>, k: nat, store: map<string, string>)
    requires WellFormedMatches(t, ms, k)
    ensures forall j | 0 <= j < |ms| ::
      MaskPattern(policy, t, ms, k, store).text[ms[j].whole.start..ms[j].whole.end] == MaskedPiece(policy, t, ms[j], k)
  {
    forall j | 0 <= j < |ms|
      ensures MaskPattern(policy, t, ms, k, store).text[ms[j].whole.start..ms[j].whole.end] == MaskedPiece(policy, t, ms[j], k)
    {
      MaskPatternPieceAt(policy, t, ms, k, store, j);
    }
  }

  lemma MaskPatternPieceAt(policy: Policy, t: string, ms: seq<Match>, k: nat, store: map<string, string>, j: nat)
    requires WellFormedMatches(t, ms, k) && j < |ms|
    ensures ms[j].whole.start <= ms[j].whole.end <= |MaskPattern(policy, t, ms, k, store).text|
    ensures MaskPattern(policy, t, ms, k, store).text[ms[j].whole.start..ms[j].whole.end] == MaskedPiece(policy, t, ms[j], k)
  {
    var a, b := ms[j].whole.start, ms[j].whole.end;
    var piece := MaskedPiece(policy, t, ms[j], k);
    assert ScanState(t, ms, k, 0, 0);
    MaskFromPieceAt(policy, t, ms, k, 0, 0, store, j);
    assert MaskFrom(policy, t, ms, k, 0, 0, store).text[a - 0..b - 0] == piece;
  }

  lemma MaskPatternGaps(policy: Policy, t: string, ms: seq<Match>, k: nat, store: map<string, string>)
    requires WellFormedMatches(t, ms, k)
    ensures forall q | 0 <= q < |t| && Outside(ms, 0, q) :: MaskPattern(policy, t, ms, k, store).text[q] == t[q]
  {
    forall q | 0 <= q < |t| && Outside(ms, 0, q)
      ensures MaskPattern(policy, t, ms, k, store).text[q] == t[q]
    {
      MaskPatternGapAt(policy, t, ms, k, store, q);
    }
  }

  lemma MaskPatternGapAt(policy: Policy, t: string, ms: seq<Match>, k: nat, store: map<string, string>, q: nat)
    requires WellFormedMatches(t, ms, k) && q < |t| && Outside(ms, 0, q)
    ensures q < |MaskPattern(policy, t, ms, k, store).text|
    ensures MaskPattern(policy, t, ms, k, store).text[q] == t[q]
  {
    var out := MaskFrom(policy, t, ms, k, 0, 0, store).text;
    assert MaskPattern(policy, t, ms, k, store).text == out;
    MaskFromGapAt(policy, t, ms, k, 0, 0, store, q);
  }

  /** `originalValues` gains exactly the values this rule masked, in order, under the next free keys. */
  lemma MaskPatternRecords(policy: Policy, t: string, ms: seq<Match>, k: nat, vals: seq<string>)
    requires WellFormedMatches(t, ms, k)
    ensures MaskPattern(policy, t, ms, k, Indexed(vals)).store == Indexed(vals + Values(t, ms, k, 0))
  {
    MaskFromPuts(policy, t, ms, k, 0, 0, Indexed(vals));
    PutAllAppends(vals, Values(t, ms, k, 0));
  }

  /** A rule that finds a single match: the text around it is copied and its piece is emitted. */
  lemma MaskPatternOneMatch(policy: Policy, t: string, m: Match, k: nat, store: map<string, string>)
    requires WellFormedMatches(t, [m], k)
    ensures WellFormedMatch(t, m, k)
    ensures MaskPattern(policy, t, [m], k, store)
         == Pass(t[..m.whole.start] + MaskedPiece(policy, t, m, k) + t[m.whole.end..], MaskOne(policy, t, m, k, store).store)
  {
    ScanStateNext(t, [m], k, 0, 0);
    var one := MaskOne(policy, t, m, k, store);
    assert MaskFrom(policy, t, [m], k, 1, m.whole.end, one.store) == Pass(t[m.whole.end..], one.store);
  }

  /** A value is filed only for a match whose selected group is present and longer than four characters. */
  lemma ValuesAreMaskedGroups(t: string, ms: seq<Match>, k: nat, i: nat)
    requires WellFormedMatches(t, ms, k) && i <= |ms|
    ensures forall n | 0 <= n < |Values(t, ms, k, i)| ::
      exists j | i <= j < |ms| :: Masks(t, ms[j], k) && Values(t, ms, k, i)[n] == Selected(t, ms[j], k).value
    ensures (forall j | i <= j < |ms| :: !Masks(t, ms[j], k)) ==> Values(t, ms, k, i) == []
  {
    forall n | 0 <= n < |Values(t, ms, k, i)|
      ensures exists j | i <= j < |ms| :: Masks(t, ms[j], k) && Values(t, ms, k, i)[n] == Selected(t, ms[j], k).value
    {
      ValueFromMaskedGroup(t, ms, k, i, n);
    }
    if forall j | i <= j < |ms| :: !Masks(t, ms[j], k) {
      NoMaskedGroupsNoValues(t, ms, k, i);
    }
  }

  lemma {:induction false} ValueFromMaskedGroup(t: string, ms: seq<Match>, k: nat, i: nat, n: nat)
    requires WellFormedMatches(t, ms, k) && i <= |ms| && n < |Values(t, ms, k, i)|
    ensures exists j | i <= j < |ms| :: Masks(t, ms[j], k) && Values(t, ms, k, i)[n] == Selected(t, ms[j], k).value
    decreases |ms| - i
  {
    assert i < |ms|;
    ValuesStep(t, ms, k, i);
    var head := MatchValues(t, ms[i], k);
    var vs := Values(t, ms, k, i);
    if n < |head| {
      assert Masks(t, ms[i], k) && vs[n] == Selected(t, ms[i], k).value;
    } else {
      ValueFromMaskedGroup(t, ms, k, i + 1, n - |head|);
      assert vs[n] == Values(t, ms, k, i + 1)[n - |head|];
    }
  }

  lemma {:induction false} NoMaskedGroupsNoValues(t: string, ms: seq<Match>, k: nat, i: nat)
    requires WellFormedMatches(t, ms, k) && i <= |ms|
    requires forall j | i <= j < |ms| :: !Masks(t, ms[j], k)
    ensures Values(t, ms, k, i) == []
    decreases |ms| - i
  {
    if i < |ms| {
      ValuesStep(t, ms, k, i);
      assert !Masks(t, ms[i], k);
      NoMaskedGroupsNoValues(t, ms, k, i + 1);
    }
  }


  /**
    As written, the leftmost occurrence of the selected value inside the
    match text keeps its first four characters and is starred after that,
    and no character outside an occurrence of the value is changed.
   */
  lemma AsWrittenMasksOccurrences(t: string, m: Match, k: nat, p: nat)
    requires WellFormedMatch(t, m, k) && Masks(t, m, k)
    requires OccursAt(MatchText(t, m), Selected(t, m, k).value, p)
    requires forall q | 0 <= q < p :: !OccursAt(MatchText(t, m), Selected(t, m, k).value, q)
    ensures var v := Selected(t, m, k).value; var piece := MaskedPiece(AsWritten, t, m, k);
      && piece[p..p + Reveal] == v[..Reveal]
      && IsStars(piece[p + Reveal..p + |v|])
      && forall i | 0 <= i < |piece| && piece[i] != MatchText(t, m)[i] ::
           exists o: nat :: o <= i < o + |v| && OccursAt(MatchText(t, m), v, o)
  {
    var v := Selected(t, m, k).value;
    var text := MatchText(t, m);
    var u := MaskValue(v);
    ReplaceAllAtFirstOccurrence(text, v, u, p);
    ReplaceAllChangesOnlyOccurrences(text, v, u);
    var piece := MaskedPiece(AsWritten, t, m, k);
    assert piece == text[..p] + u + ReplaceAll(text[p + |v|..], v, u);
    assert piece[p..p + |v|] == u;
    assert piece[p..p + Reveal] == u[..Reveal];
    assert piece[p + Reveal..p + |v|] == u[Reveal..];
  }

  /**
    In place, the selected group keeps its first four characters, is
    starred after that, and the rest of the match is copied.
   */
  lemma InPlaceMasksGroup(t: string, m: Match, k: nat)
    requires WellFormedMatch(t, m, k) && Masks(t, m, k)
    ensures var g := m.groups[k].value; var v := Selected(t, m, k).value;
      var piece := MaskedPiece(InPlace, t, m, k); var a := g.start - m.whole.start;
      && m.whole.start <= g.start
      && piece[a..a + Reveal] == v[..Reveal]
      && IsStars(piece[a + Reveal..a + |v|])
      && piece[..a] == MatchText(t, m)[..a]
      && piece[a + |v|..] == MatchText(t, m)[a + |v|..]
  {
    var g := m.groups[k].value;
    assert Within(g, m.whole);
    var v := Selected(t, m, k).value;
    var a := g.start - m.whole.start;
    var piece := MaskedPiece(InPlace, t, m, k);
    var u := MaskValue(v);
    assert piece == t[m.whole.start..g.start] + u + t[g.end..m.whole.end];
    assert |t[m.whole.start..g.start]| == a;
    assert piece[a..a + |v|] == u;
    assert piece[a..a + Reveal] == u[..Reveal];
    assert piece[a + Reveal..a + |v|] == u[Reveal..];
    assert MatchText(t, m) == t[m.whole.start..g.start] + v + t[g.end..m.whole.end];
  }

  /**
    The two policies agree when the selected value occurs in the match text
    only at the group's own position.
   */
  lemma PoliciesAgreeOnSingleOccurrence(t: string, m: Match, k: nat)
    requires WellFormedMatch(t, m, k) && Masks(t, m, k)
    requires forall q | 0 <= q <= |MatchText(t, m)| && q != m.groups[k].value.start - m.whole.start ::
      !OccursAt(MatchText(t, m), Selected(t, m, k).value, q)
    ensures MaskedPiece(AsWritten, t, m, k) == MaskedPiece(InPlace, t, m, k)
  {
    var g := m.groups[k].value;
    assert Within(g, m.whole);
    var text := MatchText(t, m);
    var v := Selected(t, m, k).value;
    var u := MaskValue(v);
    var a := g.start - m.whole.start;
    var before, after := t[m.whole.start..g.start], t[g.end..m.whole.end];
    assert text == before + v + after;
    assert |before| == a;
    assert OccursAt(text, v, a) by {
      assert text[a..a + |v|] == v;
    }
    ReplaceAllAtFirstOccurrence(text, v, u, a);
    var rest := text[a + |v|..];
    assert rest == after;
    forall p | 0 <= p <= |rest|
      ensures !OccursAt(rest, v, p)
    {
      if OccursAt(rest, v, p) {
        OccursInSuffix(text, a + |v|, v, p);
        assert false;
      }
    }
    ReplaceAllWithoutOccurrence(rest, v, u);
    assert text[..a] == before;
  }

  /**
    Which pattern constant of `DataMasker` a rule is built from
    (`API_KEY_PATTERN` … `SSN_PATTERN`); it only names the rule.
   */
  datatype Kind = ApiKey | Authorization | Password | SessionCookie | JwtToken | CreditCard | Email | Ssn

  /** A pattern (as its finder) with the capture group whose value is masked. */
  datatype Rule = Rule(kind: Kind, group: nat, find: Finder)

  ghost predicate ValidRule(r: Rule) {
    ValidFinder(r.find, r.group)
  }

  /** The six patterns whose regular expressions are not modelled, as abstract finders. */
  datatype Engines = Engines(apiKey: Finder, authorization: Finder, password: Finder,
                             sessionCookie: Finder, jwtToken: Finder, email: Finder)

  ghost predicate ValidEngines(e: Engines) {
    && ValidFinder(e.apiKey, 4)
    && ValidFinder(e.authorization, 4)
    && ValidFinder(e.password, 4)
    && ValidFinder(e.sessionCookie, 3)
    && ValidFinder(e.jwtToken, 1)
    && ValidFinder(e.email, 0)
  }

  /** The rule table in the order `mask` applies it. */
  function Rules(e: Engines): seq<Rule> {
    [ Rule(ApiKey, 4, e.apiKey),
      Rule(Authorization, 4, e.authorization),
      Rule(Password, 4, e.password),
      Rule(SessionCookie, 3, e.sessionCookie),
      Rule(JwtToken, 1, e.jwtToken),
      Rule(CreditCard, 0, Recognisers.FindCreditCards),
      Rule(Email, 0, e.email),
      Rule(Ssn, 0, Recognisers.FindSsns) ]
  }

  ghost predicate AllValid(rules: seq<Rule>) {
    forall i | 0 <= i < |rules| :: ValidRule(rules[i])
  }

  lemma RulesValid(e: Engines)
    requires ValidEngines(e)
    ensures AllValid(Rules(e))
  {
    Recognisers.RecognisersAreValidFinders();
  }

  /** The rules applied one after the other, each to the previous rule's output. */
  function ApplyRules(policy: Policy, rules: seq<Rule>, t: string, store: map<string, string>): (r: Pass)
    requires AllValid(rules)
    ensures |r.text| == |t|
    decreases |rules|
  {
    if rules == [] then Pass(t, store)
    else
      assert ValidRule(rules[0]);
      var p := MaskPattern(policy, t, rules[0].find(t), rules[0].group, store);
      ApplyRules(policy, rules[1..], p.text, p.store)
  }

  /** The rules together only star characters of the text. */
  lemma {:induction false} ApplyRulesStarOrSame(policy: Policy, rules: seq<Rule>, t: string, store: map<string, string>)
    requires AllValid(rules)
    ensures StarOrSame(t, ApplyRules(policy, rules, t, store).text)
    decreases |rules|
  {
    if rules == [] {
      StarOrSameRefl(t);
    } else {
      assert ValidRule(rules[0]);
      var p := MaskPattern(policy, t, rules[0].find(t), rules[0].group, store);
      MaskPatternStarOrSame(policy, t, rules[0].find(t), rules[0].group, store);
      ApplyRulesStarOrSame(policy, rules[1..], p.text, p.store);
      StarOrSameTrans(t, p.text, ApplyRules(policy, rules[1..], p.text, p.store).text);
    }
  }

  /** The values masked by the rules, rule after rule, each in match order. */
  function RuleValues(policy: Policy, rules: seq<Rule>, t: string): seq<string>
    requires AllValid(rules)
    decreases |rules|
  {
    if rules == [] then []
    else
      assert ValidRule(rules[0]);
      var ms := rules[0].find(t);
      var p := MaskPattern(policy, t, ms, rules[0].group, map[]);
      Values(t, ms, rules[0].group, 0) + RuleValues(policy, rules[1..], p.text)
  }

  /** The rules file exactly the values they mask, rule after rule, with `Put`. */
  lemma {:induction false} ApplyRulesPuts(policy: Policy, rules: seq<Rule>, t: string, store: map<string, string>)
    requires AllValid(rules)
    ensures ApplyRules(policy, rules, t, store).store == PutAll(store, RuleValues(policy, rules, t))
    decreases |rules|
  {
    if rules != [] {
      assert ValidRule(rules[0]);
      var ms := rules[0].find(t);
      var k := rules[0].group;
      MaskFromPuts(policy, t, ms, k, 0, 0, store);
      MaskFromIgnoresStore(policy, t, ms, k, 0, 0, store, map[]);
      var p := MaskPattern(policy, t, ms, k, store);
      ApplyRulesPuts(policy, rules[1..], p.text, p.store);
      PutAllConcat(store, Values(t, ms, k, 0), RuleValues(policy, rules[1..], p.text));
    }
  }

  lemma ApplyRulesRecords(policy: Policy, rules: seq<Rule>, t: string)
    requires AllValid(rules)
    ensures ApplyRules(policy, rules, t, map[]).store == Indexed(RuleValues(policy, rules, t))
  {
    ApplyRulesPuts(policy, rules, t, map[]);
    PutAllAppends([], RuleValues(policy, rules, t));
    assert [] + RuleValues(policy, rules, t) == RuleValues(policy, rules, t);
  }

  lemma {:induction false} ApplyRulesIgnoresStore(policy: Policy, rules: seq<Rule>, t: string,
                                                  s1: map<string, string>, s2: map<string, string>)
    requires AllValid(rules)
    ensures ApplyRules(policy, rules, t, s1).text == ApplyRules(policy, rules, t, s2).text
    decreases |rules|
  {
    if rules != [] {
      assert ValidRule(rules[0]);
      var ms := rules[0].find(t);
      var k := rules[0].group;
      MaskFromIgnoresStore(policy, t, ms, k, 0, 0, s1, s2);
      var p1 := MaskPattern(policy, t, ms, k, s1);
      var p2 := MaskPattern(policy, t, ms, k, s2);
      ApplyRulesIgnoresStore(policy, rules[1..], p1.text, p1.store, p2.store);
    }
  }

  /** The bookkeeping `originalValues`, explicit state shared by successive calls. */
  datatype MaskerState = MaskerState(originalValues: map<string, string>)

  datatype Masked = Masked(text: Option<string>, state: MaskerState)

  /**
    `mask`: `null` and `""` pass through without touching the state;
    otherwise the state is cleared and the eight rules run in order.
    `Mask(AsWritten, ...)` is the method as the source writes it.
   */
  function Mask(policy: Policy, e: Engines, input: Option<string>, state: MaskerState): (r: Masked)
    requires ValidEngines(e)
    ensures input.None? || input.value == [] ==> r == Masked(input, state)
    ensures input.Some? ==> r.text.Some? && StarOrSame(input.value, r.text.value)
    ensures input.Some? && input.value != [] ==>
      r.state.originalValues == Indexed(RuleValues(policy, Rules(e), input.value))
  {
    if input.None? || input.value == [] then Masked(input, state)
    else
      RulesValid(e);
      var p := ApplyRules(policy, Rules(e), input.value, map[]);
      ApplyRulesStarOrSame(policy, Rules(e), input.value, map[]);
      ApplyRulesRecords(policy, Rules(e), input.value);
      Masked(Some(p.text), MaskerState(p.store))
  }

  /** The masked text alone; it does not depend on the state. */
  function MaskText(policy: Policy, e: Engines, s: string): string
    requires ValidEngines(e)
  {
    Mask(policy, e, Some(s), MaskerState(map[])).text.value
  }

  lemma MaskTextIgnoresState(policy: Policy, e: Engines, s: string, state: MaskerState)
    requires ValidEngines(e)
    ensures Mask(policy, e, Some(s), state).text == Some(MaskText(policy, e, s))
  {
  }

  /** The values `mask` records for a non-empty text, in the order it records them. */
  function MaskedValues(policy: Policy, e: Engines, t: string): seq<string>
    requires ValidEngines(e)
  {
    RulesValid(e);
    RuleValues(policy, Rules(e), t)
  }

  /** One rule on its own, starting from an empty map: its text output. */
  function Step(policy: Policy, f: Finder, k: nat, t: string): string
    requires WellFormedMatches(t, f(t), k)
  {
    MaskPattern(policy, t, f(t), k, map[]).text
  }

  /**
    `mask` is the eight rules composed in the fixed order API key,
    Authorization, Password, Session cookie, JWT, Credit card, Email, SSN,
    with capture groups 4, 4, 4, 3, 1, 0, 0, 0.
   */
  lemma MaskIsOrderedComposition(policy: Policy, e: Engines, s: string, state: MaskerState)
    requires ValidEngines(e) && s != []
    ensures Mask(policy, e, Some(s), state).text == Some(
        Step(policy, Recognisers.FindSsns, 0,
        Step(policy, e.email, 0,
        Step(policy, Recognisers.FindCreditCards, 0,
        Step(policy, e.jwtToken, 1,
        Step(policy, e.sessionCookie, 3,
        Step(policy, e.password, 4,
        Step(policy, e.authorization, 4,
        Step(policy, e.apiKey, 4, s)))))))))
  {
    RulesValid(e);
    var t4 := Step(policy, e.sessionCookie, 3, Step(policy, e.password, 4, Step(policy, e.authorization, 4, Step(policy, e.apiKey, 4, s))));
    FirstFourRules(policy, e, s);
    LastFourRules(policy, e, t4);
  }

  /** API key, Authorization, Password and Session cookie, in this order. */
  lemma FirstFourRules(policy: Policy, e: Engines, s: string)
    requires ValidEngines(e)
    ensures AllValid(Rules(e)) && AllValid(Rules(e)[4..])
    ensures ApplyRules(policy, Rules(e), s, map[]).text
         == ApplyRules(policy, Rules(e)[4..],
              Step(policy, e.sessionCookie, 3, Step(policy, e.password, 4, Step(policy, e.authorization, 4, Step(policy, e.apiKey, 4, s)))), map[]).text
  {
    RulesValid(e);
    var rs := Rules(e);
    var t1 := Step(policy, e.apiKey, 4, s);
    var t2 := Step(policy, e.authorization, 4, t1);
    var t3 := Step(policy, e.password, 4, t2);
    ApplyRulesStep(policy, rs, s, map[]);
    ApplyRulesStep(policy, rs[1..], t1, map[]);
    ApplyRulesStep(policy, rs[2..], t2, map[]);
    ApplyRulesStep(policy, rs[3..], t3, map[]);
  }

  /** JWT, Credit card, Email and SSN, in this order. */
  lemma LastFourRules(policy: Policy, e: Engines, t4: string)
    requires ValidEngines(e)
    ensures AllValid(Rules(e)[4..])
    ensures ApplyRules(policy, Rules(e)[4..], t4, map[]).text
         == Step(policy, Recognisers.FindSsns, 0, Step(policy, e.email, 0, Step(policy, Recognisers.FindCreditCards, 0, Step(policy, e.jwtToken, 1, t4))))
  {
    RulesValid(e);
    var rs := Rules(e)[4..];
    var t5 := Step(policy, e.jwtToken, 1, t4);
    var t6 := Step(policy, Recognisers.FindCreditCards, 0, t5);
    var t7 := Step(policy, e.email, 0, t6);
    ApplyRulesStep(policy, rs, t4, map[]);
    ApplyRulesStep(policy, rs[1..], t5, map[]);
    ApplyRulesStep(policy, rs[2..], t6, map[]);
    ApplyRulesStep(policy, rs[3..], t7, map[]);
    assert rs[4..] == [];
  }

  /** The first rule, then the others on its output; the map handed on does not affect the text. */
  lemma ApplyRulesStep(policy: Policy, rules: seq<Rule>, t: string, store: map<string, string>)
    requires AllValid(rules) && rules != []
    ensures ValidRule(rules[0]) && AllValid(rules[1..])
    ensures ApplyRules(policy, rules, t, store).text
         == ApplyRules(policy, rules[1..], MaskPattern(policy, t, rules[0].find(t), rules[0].group, map[]).text, map[]).text
  {
    assert ValidRule(rules[0]);
    var ms := rules[0].find(t);
    MaskFromIgnoresStore(policy, t, ms, rules[0].group, 0, 0, store, map[]);
    var p := MaskPattern(policy, t, ms, rules[0].group, store);
    ApplyRulesIgnoresStore(policy, rules[1..], p.text, p.store, map[]);
  }
}
