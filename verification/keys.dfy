/**
  The keys under which `DataMasker` files each original value:
  `"masked_" + originalValues.size()`, Java's decimal rendering of an `int`.
 */
module Keys {

  function DigitChar(d: nat): (c: char)
    requires d < 10
    ensures '0' <= c <= '9'
  {
    (('0' as int) + d) as char
  }

  function DigitValue(c: char): nat {
    if '0' <= c <= '9' then c as int - '0' as int else 0
  }

  /** Decimal rendering of a non-negative number, as Java's string concatenation prints an `int`. */
  function Decimal(n: nat): (r: string)
    ensures |r| > 0
    ensures forall i | 0 <= i < |r| :: '0' <= r[i] <= '9'
    decreases n
  {
    if n < 10 then [DigitChar(n)] else Decimal(n / 10) + [DigitChar(n % 10)]
  }

  /** Reads back a string of decimal digits. */
  function ParseDecimal(s: string): nat
    decreases |s|
  {
    if s == [] then 0 else ParseDecimal(s[..|s| - 1]) * 10 + DigitValue(s[|s| - 1])
  }

  lemma {:induction false} ParseDecimalInvertsDecimal(n: nat)
    ensures ParseDecimal(Decimal(n)) == n
    decreases n
  {
    if n >= 10 {
      var d := Decimal(n / 10);
      ParseDecimalInvertsDecimal(n / 10);
      assert (d + [DigitChar(n % 10)])[..|d|] == d;
    }
  }

  lemma DecimalInjective(i: nat, j: nat)
    ensures Decimal(i) == Decimal(j) ==> i == j
  {
    ParseDecimalInvertsDecimal(i);
    ParseDecimalInvertsDecimal(j);
  }

  const KeyPrefix: string := "masked_"

  /** The key for the value stored when the map already holds `n` entries. */
  function Key(n: nat): (k: string)
    ensures |k| > |KeyPrefix| && k[..|KeyPrefix|] == KeyPrefix
  {
    KeyPrefix + Decimal(n)
  }

  /** After the prefix a key holds only digits, and they read back as `n`. */
  lemma KeyDigits(n: nat)
    ensures forall i | |KeyPrefix| <= i < |Key(n)| :: '0' <= Key(n)[i] <= '9'
    ensures ParseDecimal(Key(n)[|KeyPrefix|..]) == n
  {
    assert Key(n)[|KeyPrefix|..] == Decimal(n);
    ParseDecimalInvertsDecimal(n);
  }

  lemma KeyInjective(i: nat, j: nat)
    ensures Key(i) == Key(j) ==> i == j
  {
    if Key(i) == Key(j) {
      assert Decimal(i) == Key(i)[|KeyPrefix|..];
      assert Decimal(j) == Key(j)[|KeyPrefix|..];
      DecimalInjective(i, j);
    }
  }

  /** The originals map holding `vals[i]` under `Key(i)`, built in order. */
  function Indexed(vals: seq<string>): map<string, string>
    decreases |vals|
  {
    if vals == [] then map[]
    else Indexed(vals[..|vals| - 1])[Key(|vals| - 1) := vals[|vals| - 1]]
  }

  /** `Indexed(vals)` has exactly one entry per value, under keys `masked_0` … `masked_{n-1}`. */
  lemma {:induction false} IndexedShape(vals: seq<string>)
    ensures |Indexed(vals)| == |vals|
    ensures forall i | 0 <= i < |vals| :: Key(i) in Indexed(vals) && Indexed(vals)[Key(i)] == vals[i]
    ensures forall k | k in Indexed(vals) :: exists i | 0 <= i < |vals| :: k == Key(i)
    decreases |vals|
  {
    if vals != [] {
      var n := |vals| - 1;
      var prev := vals[..n];
      IndexedShape(prev);
      assert Key(n) !in Indexed(prev) by {
        if Key(n) in Indexed(prev) {
          var i :| 0 <= i < n && Key(n) == Key(i);
          KeyInjective(n, i);
        }
      }
      forall i | 0 <= i < n
        ensures Key(i) != Key(n)
      {
        KeyInjective(i, n);
      }
    }
  }

  /** Java's `originalValues.put("masked_" + originalValues.size(), v)`. */
  function Put(store: map<string, string>, v: string): map<string, string> {
    store[Key(|store|) := v]
  }

  /** Putting into an indexed map appends to the indexed sequence. */
  lemma PutAppends(vals: seq<string>, v: string)
    ensures Put(Indexed(vals), v) == Indexed(vals + [v])
  {
    IndexedShape(vals);
    assert (vals + [v])[..|vals|] == vals;
  }

  /** `Put` of each value in turn. */
  function PutAll(store: map<string, string>, ws: seq<string>): map<string, string>
    decreases |ws|
  {
    if ws == [] then store else PutAll(Put(store, ws[0]), ws[1..])
  }

  /** Putting values one by one into an indexed map appends them to the indexed sequence. */
  lemma {:induction false} PutAllAppends(vals: seq<string>, ws: seq<string>)
    ensures PutAll(Indexed(vals), ws) == Indexed(vals + ws)
    decreases |ws|
  {
    if ws == [] {
      assert vals + ws == vals;
    } else {
      PutAppends(vals, ws[0]);
      PutAllAppends(vals + [ws[0]], ws[1..]);
      assert vals + [ws[0]] + ws[1..] == vals + ws;
    }
  }

  lemma {:induction false} PutAllConcat(store: map<string, string>, a: seq<string>, b: seq<string>)
    ensures PutAll(PutAll(store, a), b) == PutAll(store, a + b)
    decreases |a|
  {
    if a == [] {
      assert a + b == b;
    } else {
      PutAllConcat(Put(store, a[0]), a[1..], b);
      assert (a + b)[1..] == a[1..] + b;
    }
  }
}
