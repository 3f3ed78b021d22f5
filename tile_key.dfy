/**
  Tile keys. Both tile managers index their maps by the string
  `${tx}_${ty}_${tile}`: the world coordinates of a cell's lower-left corner
  and the edge length of its tier, each printed as JavaScript prints an
  integral number. Decode is the partner of Encode; the round trip shows that
  two different cells never share a key string.
 */
module TileKeys {

  import opened Wrappers

  /** A grid cell: its lower-left corner (tx, ty) and its tier's edge length. */
  datatype TileKey = TileKey(tx: int, ty: int, tile: int)

  predicate IsDigit(c: char) {
    '0' <= c <= '9'
  }

  predicate AllDigits(s: string) {
    forall i :: 0 <= i < |s| ==> IsDigit(s[i])
  }

  function Digit(d: int): (c: char)
    requires 0 <= d < 10
    ensures IsDigit(c) && c as int - '0' as int == d
  {
    ('0' as int + d) as char
  }

  /** Decimal notation of `n`, without leading zeros. */
  function NatString(n: nat): (r: string)
    ensures |r| > 0 && AllDigits(r)
    ensures |r| > 1 ==> r[0] != '0'
  {
    if n < 10 then [Digit(n)] else NatString(n / 10) + [Digit(n % 10)]
  }

  /** The number a string of decimal digits denotes. */
  function DigitsValue(s: string): nat
    requires AllDigits(s)
  {
    if s == [] then 0
    else 10 * DigitsValue(s[..|s| - 1]) + (s[|s| - 1] as int - '0' as int)
  }

  /** `${i}` for an integral number `i`: an optional minus sign, then the digits of |i|. */
  function IntString(i: int): string {
    if i < 0 then "-" + NatString(-i) else NatString(i)
  }

  /** Reads back what IntString prints; None for any other string. */
  function ParseInt(s: string): Option<int> {
    if |s| > 0 && s[0] == '-' then
      if |s| > 1 && AllDigits(s[1..]) then Some(-(DigitsValue(s[1..]) as int)) else None
    else if |s| > 0 && AllDigits(s) then Some(DigitsValue(s))
    else None
  }

  lemma {:induction false} NatStringValue(n: nat)
    ensures DigitsValue(NatString(n)) == n
  {
    if n >= 10 {
      NatStringValue(n / 10);
      var s := NatString(n / 10) + [Digit(n % 10)];
      assert s[..|s| - 1] == NatString(n / 10);
    }
  }

  /** Parsing a printed integer gives it back, and no separator `_` is ever printed. */
  lemma IntStringRoundTrip(i: int)
    ensures ParseInt(IntString(i)) == Some(i)
    ensures '_' !in IntString(i)
  {
    if i < 0 {
      NatStringValue(-i);
      assert IntString(i)[1..] == NatString(-i);
    } else {
      NatStringValue(i);
    }
  }

  /** Splits `s` at every occurrence of `sep`, as `String.prototype.split` does. */
  function Split(s: string, sep: char): (parts: seq<string>)
    ensures |parts| > 0
  {
    if s == [] then [[]]
    else
      var rest := Split(s[1..], sep);
      if s[0] == sep then [[]] + rest else [[s[0]] + rest[0]] + rest[1..]
  }

  lemma {:induction false} SplitWithout(a: string, sep: char)
    requires sep !in a
    ensures Split(a, sep) == [a]
  {
    if a != [] {
      SplitWithout(a[1..], sep);
      assert [a[0]] + a[1..] == a;
    }
  }

  lemma {:induction false} SplitAt(a: string, sep: char, b: string)
    requires sep !in a
    ensures Split(a + [sep] + b, sep) == [a] + Split(b, sep)
  {
    var s := a + [sep] + b;
    if a == [] {
      assert s[1..] == b;
    } else {
      assert s[1..] == a[1..] + [sep] + b;
      SplitAt(a[1..], sep, b);
      assert [a[0]] + a[1..] == a;
    }
  }

  /** The key string of a cell: `tx_ty_tile`. */
  function Encode(k: TileKey): string {
    IntString(k.tx) + "_" + IntString(k.ty) + "_" + IntString(k.tile)
  }

  /** The cell a key string names, if it is well formed. */
  function Decode(s: string): Option<TileKey> {
    var parts := Split(s, '_');
    if |parts| != 3 then None
    else
      match (ParseInt(parts[0]), ParseInt(parts[1]), ParseInt(parts[2]))
      case (Some(tx), Some(ty), Some(tile)) => Some(TileKey(tx, ty, tile))
      case _ => None
  }

  /** Every key string decodes to the cell it was made from. */
  lemma EncodeDecode(k: TileKey)
    ensures Decode(Encode(k)) == Some(k)
  {
    var a, b, c := IntString(k.tx), IntString(k.ty), IntString(k.tile);
    IntStringRoundTrip(k.tx);
    IntStringRoundTrip(k.ty);
    IntStringRoundTrip(k.tile);
    assert Encode(k) == a + ['_'] + (b + ['_'] + c);
    SplitAt(a, '_', b + ['_'] + c);
    SplitAt(b, '_', c);
    SplitWithout(c, '_');
    assert Split(Encode(k), '_') == [a, b, c];
  }

  /** Two different cells (also of different tiers) never share a key string. */
  lemma EncodeInjective(k1: TileKey, k2: TileKey)
    ensures Encode(k1) == Encode(k2) <==> k1 == k2
  {
    EncodeDecode(k1);
    EncodeDecode(k2);
  }

}
