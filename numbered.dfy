/**
 * A map built by storing the i-th value (1-based) under `tag + str(i)`,
 * one value at a time: the shape of both dictionaries the tracker fills
 * (landmarks under "1".."n", frames under "frame1".."frameK").
 */
module NumberedMaps {
  import opened Decimal

  /** The key of entry number `j`: `f"{tag}{j}"`. */
  function Key(tag: string, j: nat): string {
    tag + DecimalString(j)
  }

  /** The map after storing `vals[0]`, ..., `vals[|vals|-1]` under keys 1, ..., |vals|, in order. */
  function Numbered<V>(tag: string, vals: seq<V>): map<string, V>
    decreases |vals|
  {
    if |vals| == 0 then map[] else Numbered(tag, vals[..|vals| - 1])[Key(tag, |vals|) := vals[|vals| - 1]]
  }

  /** Keys sharing a tag are equal only for equal numbers. */
  lemma KeyInjective(tag: string, i: nat, j: nat)
    ensures Key(tag, i) == Key(tag, j) ==> i == j
  {
    if Key(tag, i) == Key(tag, j) {
      assert Key(tag, i)[|tag|..] == DecimalString(i);
      assert Key(tag, j)[|tag|..] == DecimalString(j);
      DecimalStringInjective(i, j);
    }
  }

  lemma NumberedSnoc<V>(tag: string, vals: seq<V>, v: V)
    ensures Numbered(tag, vals + [v]) == Numbered(tag, vals)[Key(tag, |vals| + 1) := v]
  {
    assert (vals + [v])[..|vals|] == vals;
  }

  /** The keys are exactly those of entries 1..|vals|. */
  lemma {:induction false} NumberedKeys<V>(tag: string, vals: seq<V>)
    ensures forall k :: k in Numbered(tag, vals) <==> exists j :: 1 <= j <= |vals| && k == Key(tag, j)
  {
    if |vals| > 0 {
      NumberedKeys(tag, vals[..|vals| - 1]);
    }
  }

  /** Entry number i+1 holds `vals[i]`: no later store overwrites it. */
  lemma {:induction false} NumberedAt<V>(tag: string, vals: seq<V>, i: nat)
    requires i < |vals|
    ensures Key(tag, i + 1) in Numbered(tag, vals)
    ensures Numbered(tag, vals)[Key(tag, i + 1)] == vals[i]
  {
    var n := |vals|;
    if i < n - 1 {
      KeyInjective(tag, i + 1, n);
      NumberedAt(tag, vals[..n - 1], i);
    }
  }

  /** One entry per value: every store adds a fresh key. */
  lemma {:induction false} NumberedSize<V>(tag: string, vals: seq<V>)
    ensures |Numbered(tag, vals)| == |vals|
  {
    var n := |vals|;
    if n > 0 {
      var prefix := vals[..n - 1];
      NumberedSize(tag, prefix);
      NumberedKeys(tag, prefix);
      forall j | 1 <= j <= n - 1 ensures Key(tag, j) != Key(tag, n) {
        KeyInjective(tag, j, n);
      }
      assert Key(tag, n) !in Numbered(tag, prefix);
    }
  }

  /** A key is present exactly when it is the tag followed by the numeral of some 1 <= j <= |vals|. */
  lemma NumberedKeyIff<V>(tag: string, vals: seq<V>, k: string)
    ensures k in Numbered(tag, vals) <==>
      |tag| <= |k| && k[..|tag|] == tag && Canonical(k[|tag|..]) && 1 <= ParseDecimal(k[|tag|..]) <= |vals|
  {
    NumberedKeys(tag, vals);
    if k in Numbered(tag, vals) {
      var j :| 1 <= j <= |vals| && k == Key(tag, j);
      assert k[..|tag|] == tag && k[|tag|..] == DecimalString(j);
      ParseDecimalString(j);
    }
    if |tag| <= |k| && k[..|tag|] == tag && Canonical(k[|tag|..]) && 1 <= ParseDecimal(k[|tag|..]) <= |vals| {
      var s := k[|tag|..];
      DecimalStringOfParse(s);
      assert k == tag + s;
      assert k == Key(tag, ParseDecimal(s));
    }
  }
}
