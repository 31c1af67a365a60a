/**
  Hand-written recognisers for the two fixed-shape patterns of
  `DataMasker`: the credit-card pattern `(?:\d{4}[-\s]?){3}\d{4}` and the
  SSN pattern `\b\d{3}[-\s]?\d{2}[-\s]?\d{4}\b`. Digits and separators are
  disjoint character classes, so backtracking over the greedy optional
  separators never finds a second way to match: each start index has at
  most one match, which these functions compute directly.
 */
module Recognisers {
  import opened Options
  import opened Matching

  datatype Shape = CreditCard | Ssn

  /** `\d` */
  predicate IsDigit(c: char) {
    '0' <= c <= '9'
  }

  /** `\s`: space, tab, newline, vertical tab, form feed, carriage return. */
  predicate IsSpace(c: char) {
    c == ' ' || c == '\t' || c == '\n' || c == '\U{000B}' || c == '\U{000C}' || c == '\r'
  }

  /** `[-\s]` */
  predicate IsSeparator(c: char) {
    c == '-' || IsSpace(c)
  }

  /** `\w`: ASCII letters, digits and underscore. */
  predicate IsWordChar(c: char) {
    ('a' <= c <= 'z') || ('A' <= c <= 'Z') || IsDigit(c) || c == '_'
  }

  /** `\b` at index `p`: exactly one of the neighbouring characters is a word character. */
  predicate Boundary(t: string, p: nat) {
    (0 < p <= |t| && IsWordChar(t[p - 1])) != (p < |t| && IsWordChar(t[p]))
  }

  /** `\d{n}` at index `p`. */
  predicate DigitsAt(t: string, p: nat, n: nat) {
    p + n <= |t| && forall i | p <= i < p + n :: IsDigit(t[i])
  }

  /** The greedy `[-\s]?` at index `p`: the index after it. */
  function SkipSeparator(t: string, p: nat): (q: nat)
    ensures q == p || (q == p + 1 && p < |t| && IsSeparator(t[p]))
  {
    if p < |t| && IsSeparator(t[p]) then p + 1 else p
  }

  /** `(?:\d{4}[-\s]?){3}\d{4}` anchored at `i`: the end of the match, if any. */
  function CardEnd(t: string, i: nat): Option<nat> {
    if !DigitsAt(t, i, 4) then None else
    var a := SkipSeparator(t, i + 4);
    if !DigitsAt(t, a, 4) then None else
    var b := SkipSeparator(t, a + 4);
    if !DigitsAt(t, b, 4) then None else
    var c := SkipSeparator(t, b + 4);
    if !DigitsAt(t, c, 4) then None else Some(c + 4)
  }

  /** `\b\d{3}[-\s]?\d{2}[-\s]?\d{4}\b` anchored at `i`: the end of the match, if any. */
  function SsnEnd(t: string, i: nat): Option<nat> {
    if !Boundary(t, i) || !DigitsAt(t, i, 3) then None else
    var a := SkipSeparator(t, i + 3);
    if !DigitsAt(t, a, 2) then None else
    var b := SkipSeparator(t, a + 2);
    if !DigitsAt(t, b, 4) || !Boundary(t, b + 4) then None else Some(b + 4)
  }

  /** A match of `shape` anchored at `i` ends at `e`, is longer than 4 characters and lies in the text. */
  function MatchEnd(shape: Shape, t: string, i: nat): (r: Option<nat>)
    ensures r.Some? ==> i + 4 < r.value <= |t|
    ensures r.Some? && shape == CreditCard ==> i + 16 <= r.value <= i + 19
    ensures r.Some? && shape == Ssn ==> i + 9 <= r.value <= i + 11
  {
    match shape
    case CreditCard => CardEnd(t, i)
    case Ssn => SsnEnd(t, i)
  }

  /**
    An anchored matcher over a fixed text: for each start index, the end of
    the match found there, if any.
   */
  type Ends = nat -> Option<nat>

  /** The anchored matcher of a shape over `t`. */
  function EndsOf(shape: Shape, t: string): Ends {
    i => MatchEnd(shape, t, i)
  }

  /** An anchored matcher over `t` whose matches, at the start indices of the text, are non-empty and lie in the text. */
  predicate EndsWithin(ends: Ends, t: string) {
    forall i: nat | i < |t| :: ends(i).Some? ==> i < ends(i).value <= |t|
  }

  lemma EndsOfWithin(shape: Shape, t: string)
    ensures EndsWithin(EndsOf(shape, t), t)
  {
    forall i: nat | i < |t| && EndsOf(shape, t)(i).Some?
      ensures i < EndsOf(shape, t)(i).value <= |t|
    {
      assert EndsOf(shape, t)(i) == MatchEnd(shape, t, i);
    }
  }

  /** The shape of each match `Scan` returns: found at or after `from`, inside the text, only group 0. */
  predicate Placed(t: string, from: nat, m: Match) {
    && from <= m.whole.start < m.whole.end <= |t|
    && m.groups == [Some(m.whole)]
  }

  /**
    Repeated `find()` from index `from`: try each start index in turn, take
    the first that matches, and resume the search at the end of that match.
   */
  function Scan(ends: Ends, t: string, from: nat): (ms: seq<Match>)
    requires EndsWithin(ends, t) && from <= |t|
    ensures forall j | 0 <= j < |ms| :: Placed(t, from, ms[j])
    ensures forall i, j | 0 <= i < j < |ms| :: ms[i].whole.end <= ms[j].whole.start
    decreases |t| - from
  {
    if from == |t| then []
    else match ends(from)
      case Some(e) =>
        var m := Match(Span(from, e), [Some(Span(from, e))]);
        var rest := Scan(ends, t, e);
        ScanConsSorted(t, from, m, rest);
        [m] + rest
      case None =>
        Scan(ends, t, from + 1)
  }

  lemma ScanConsSorted(t: string, from: nat, m: Match, rest: seq<Match>)
    requires Placed(t, from, m)
    requires forall j | 0 <= j < |rest| :: Placed(t, m.whole.end, rest[j])
    requires forall i, j | 0 <= i < j < |rest| :: rest[i].whole.end <= rest[j].whole.start
    ensures forall j | 0 <= j < |[m] + rest| :: Placed(t, from, ([m] + rest)[j])
    ensures forall i, j | 0 <= i < j < |[m] + rest| :: ([m] + rest)[i].whole.end <= ([m] + rest)[j].whole.start
  {
    var ms := [m] + rest;
    forall j | 0 < j < |ms|
      ensures ms[j] == rest[j - 1]
    {
    }
  }

  /** A match at `from` is reported first, and the search resumes at its end. */
  lemma ScanFound(ends: Ends, t: string, from: nat, e: nat)
    requires EndsWithin(ends, t) && from < |t| && ends(from) == Some(e)
    ensures e <= |t|
    ensures Scan(ends, t, from) == [Match(Span(from, e), [Some(Span(from, e))])] + Scan(ends, t, e)
  {
  }

  /** Start indices where nothing matches are skipped. */
  lemma {:induction false} ScanSkips(ends: Ends, t: string, from: nat, upto: nat)
    requires EndsWithin(ends, t) && from <= upto <= |t|
    requires forall p | from <= p < upto :: ends(p).None?
    ensures Scan(ends, t, from) == Scan(ends, t, upto)
    decreases upto - from
  {
    if from < upto {
      assert ends(from).None?;
      assert Scan(ends, t, from) == Scan(ends, t, from + 1);
      ScanSkips(ends, t, from + 1, upto);
    }
  }

  /** Every match `Scan` returns is a match of the matcher at its start index. */
  lemma {:induction false} ScanSound(ends: Ends, t: string, from: nat, j: nat)
    requires EndsWithin(ends, t) && from <= |t| && j < |Scan(ends, t, from)|
    ensures ends(Scan(ends, t, from)[j].whole.start) == Some(Scan(ends, t, from)[j].whole.end)
    decreases |t| - from
  {
    assert from < |t|;
    match ends(from)
    case Some(e) =>
      ScanFound(ends, t, from, e);
      if j > 0 {
        ScanSound(ends, t, e, j - 1);
      }
    case None =>
      ScanSound(ends, t, from + 1, j);
  }

  /** What `Scan` returns is what successive `find()` calls deliver. */
  lemma ScanWellFormed(ends: Ends, t: string, from: nat)
    requires EndsWithin(ends, t) && from <= |t|
    ensures WellFormedMatches(t, Scan(ends, t, from), 0)
  {
    var ms := Scan(ends, t, from);
    forall i | 0 <= i < |ms|
      ensures WellFormedMatch(t, ms[i], 0)
    {
      assert Placed(t, from, ms[i]);
    }
  }

  /** No match is missed: every index where a match could start is reported or lies inside a reported match. */
  lemma {:induction false} ScanMissesNothing(ends: Ends, t: string, from: nat, p: nat)
    requires EndsWithin(ends, t) && from <= p < |t|
    requires ends(p).Some?
    ensures exists j | 0 <= j < |Scan(ends, t, from)| ::
      Scan(ends, t, from)[j].whole.start <= p < Scan(ends, t, from)[j].whole.end
    decreases |t| - from
  {
    var ms := Scan(ends, t, from);
    match ends(from)
    case Some(e) =>
      ScanFound(ends, t, from, e);
      if e <= p {
        var rest := Scan(ends, t, e);
        ScanMissesNothing(ends, t, e, p);
        var j :| 0 <= j < |rest| && rest[j].whole.start <= p < rest[j].whole.end;
        assert ms[j + 1] == rest[j];
      } else {
        assert ms[0].whole.start <= p < ms[0].whole.end;
      }
    case None =>
      assert p != from;
      ScanMissesNothing(ends, t, from + 1, p);
  }

  /** Repeated `find()` over the whole text for one shape. */
  function Find(shape: Shape, t: string): (ms: seq<Match>)
    ensures WellFormedMatches(t, ms, 0)
  {
    EndsOfWithin(shape, t);
    ScanWellFormed(EndsOf(shape, t), t, 0);
    Scan(EndsOf(shape, t), t, 0)
  }

  /**
    The finder reports only real matches, and no index where a match
    starts is left uncovered by the matches it reports.
   */
  lemma FindSoundAndComplete(shape: Shape, t: string)
    ensures forall j | 0 <= j < |Find(shape, t)| ::
      MatchEnd(shape, t, Find(shape, t)[j].whole.start) == Some(Find(shape, t)[j].whole.end)
    ensures forall p | 0 <= p < |t| && MatchEnd(shape, t, p).Some? ::
      exists j | 0 <= j < |Find(shape, t)| :: Find(shape, t)[j].whole.start <= p < Find(shape, t)[j].whole.end
  {
    var ends := EndsOf(shape, t);
    EndsOfWithin(shape, t);
    var ms := Find(shape, t);
    assert ms == Scan(ends, t, 0);
    forall j | 0 <= j < |ms|
      ensures MatchEnd(shape, t, ms[j].whole.start) == Some(ms[j].whole.end)
    {
      ScanSound(ends, t, 0, j);
      assert ends(ms[j].whole.start) == MatchEnd(shape, t, ms[j].whole.start);
    }
    forall p | 0 <= p < |t| && MatchEnd(shape, t, p).Some?
      ensures exists j | 0 <= j < |ms| :: ms[j].whole.start <= p < ms[j].whole.end
    {
      assert ends(p) == MatchEnd(shape, t, p);
      ScanMissesNothing(ends, t, 0, p);
    }
  }

  /** The credit-card finder. */
  function FindCreditCards(t: string): (ms: seq<Match>)
    ensures WellFormedMatches(t, ms, 0)
  {
    Find(CreditCard, t)
  }

  /** The SSN finder. */
  function FindSsns(t: string): (ms: seq<Match>)
    ensures WellFormedMatches(t, ms, 0)
  {
    Find(Ssn, t)
  }

  lemma RecognisersAreValidFinders()
    ensures ValidFinder(FindCreditCards, 0)
    ensures ValidFinder(FindSsns, 0)
  {
  }
}
