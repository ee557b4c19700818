/** Byte strings, their concatenation, and the little-endian and decimal encodings the program uses. */
module Bytes {

  newtype byte = x: int | 0 <= x < 256

  datatype Option<+T> = None | Some(value: T)

  /** A directory's files by name. */
  type Files = map<string, seq<byte>>

  predicate AllZero(s: seq<byte>) {
    forall i :: 0 <= i < |s| ==> s[i] == 0
  }

  function Zeros(n: nat): (s: seq<byte>)
    ensures |s| == n && AllZero(s)
  {
    seq(n, _ => 0)
  }

  function Flatten(parts: seq<seq<byte>>): seq<byte> {
    if parts == [] then [] else parts[0] + Flatten(parts[1..])
  }

  lemma FlattenConcat(a: seq<seq<byte>>, b: seq<seq<byte>>)
    ensures Flatten(a + b) == Flatten(a) + Flatten(b)
  {
    if a == [] {
      assert a + b == b;
    } else {
      assert (a + b)[1..] == a[1..] + b;
      FlattenConcat(a[1..], b);
    }
  }

  lemma FlattenSnoc(a: seq<seq<byte>>, s: seq<byte>)
    ensures Flatten(a + [s]) == Flatten(a) + s
  {
    FlattenConcat(a, [s]);
    assert Flatten([s]) == s + Flatten([]);
  }

  /** The one-byte parts of a string: the shortest reads a reader may deliver. */
  function Singletons(s: seq<byte>): (parts: seq<seq<byte>>)
    ensures |parts| == |s| && forall part :: part in parts ==> |part| == 1
  {
    if s == [] then [] else [[s[0]]] + Singletons(s[1..])
  }

  lemma FlattenSingletons(s: seq<byte>)
    ensures Flatten(Singletons(s)) == s
  {
    if s != [] {
      assert Singletons(s)[1..] == Singletons(s[1..]);
      FlattenSingletons(s[1..]);
    }
  }

  // ---- binary.LittleEndian.Uint32 ----

  const TWO_TO_THE_32 := 0x1_0000_0000

  function EncodeUint32(n: nat): (s: seq<byte>)
    requires n < TWO_TO_THE_32
    ensures |s| == 4
  {
    [(n % 256) as byte, (n / 256 % 256) as byte, (n / 65536 % 256) as byte, (n / 16777216) as byte]
  }

  function DecodeUint32(s: seq<byte>): (n: nat)
    requires |s| == 4
    ensures n < TWO_TO_THE_32
  {
    s[0] as nat + 256 * s[1] as nat + 65536 * s[2] as nat + 16777216 * s[3] as nat
  }

  lemma Uint32RoundTrip(n: nat)
    requires n < TWO_TO_THE_32
    ensures DecodeUint32(EncodeUint32(n)) == n
  {
    var a, b := n / 256, n / 65536;
    assert b == a / 256 && n / 16777216 == b / 256;
  }

  /** The k-th byte is the k-th digit to base 256, the lowest first. */
  lemma LittleEndian(s: seq<byte>)
    requires |s| == 4
    ensures DecodeUint32(s) % 256 == s[0] as nat
    ensures DecodeUint32(s) / 256 % 256 == s[1] as nat
    ensures DecodeUint32(s) / 65536 % 256 == s[2] as nat
    ensures DecodeUint32(s) / 16777216 == s[3] as nat
  {
    var n := DecodeUint32(s);
    assert n / 256 == s[1] as nat + 256 * s[2] as nat + 65536 * s[3] as nat;
    assert n / 65536 == s[2] as nat + 256 * s[3] as nat;
  }

  // ---- strconv.FormatInt and strconv.ParseInt in base 10 with 64 bits ----

  const MAX_INT64 := 0x7fff_ffff_ffff_ffff

  predicate IsDigit(c: char) {
    '0' <= c <= '9'
  }

  function FormatInt(n: nat): (s: string)
    ensures s != [] && forall c :: c in s ==> IsDigit(c)
  {
    var last := ['0' + (n % 10) as char];
    if n < 10 then last else FormatInt(n / 10) + last
  }

  /** The value of a non-empty run of digits, or None when some character is not one. */
  function ParseDigits(s: string): (r: Option<nat>)
  {
    if s == [] then Some(0)
    else if !IsDigit(s[|s| - 1]) then None
    else
      var rest := ParseDigits(s[..|s| - 1]);
      if rest.None? then None else Some(10 * rest.value + (s[|s| - 1] - '0') as nat)
  }

  function ParseInt(s: string): (r: Option<int>)
    ensures r.Some? ==> -MAX_INT64 - 1 <= r.value <= MAX_INT64
  {
    var negative := |s| > 0 && s[0] == '-';
    var digits := if negative || (|s| > 0 && s[0] == '+') then s[1..] else s;
    var magnitude := ParseDigits(digits);
    if digits == [] || magnitude.None? then None
    else
      var n := (if negative then -1 else 1) * magnitude.value;
      if -MAX_INT64 - 1 <= n <= MAX_INT64 then Some(n) else None
  }

  lemma {:induction false} ParseDigitsOfFormat(n: nat)
    ensures ParseDigits(FormatInt(n)) == Some(n)
  {
    var s := FormatInt(n);
    var c := '0' + (n % 10) as char;
    assert s[|s| - 1] == c && (c - '0') as nat == n % 10;
    if n < 10 {
      assert s[..|s| - 1] == [];
    } else {
      assert s[..|s| - 1] == FormatInt(n / 10);
      ParseDigitsOfFormat(n / 10);
    }
  }

  /** A non-negative size written by the pusher is read back by the puller, as long as it fits an int64. */
  lemma ParseIntOfFormat(n: nat)
    ensures ParseInt(FormatInt(n)) == if n <= MAX_INT64 then Some(n) else None
  {
    ParseDigitsOfFormat(n);
    var s := FormatInt(n);
    assert IsDigit(s[0]) by { assert s[0] in s; }
  }

  /** A sign is accepted before the digits; the negative numbers reach one further. */
  lemma ParseIntOfSigned(n: nat)
    ensures ParseInt("+" + FormatInt(n)) == if n <= MAX_INT64 then Some(n) else None
    ensures var r := ParseInt("-" + FormatInt(n));
            if n <= MAX_INT64 + 1 then r.Some? && r.value + n == 0 else r == None
  {
    ParseDigitsOfFormat(n);
    assert ("+" + FormatInt(n))[1..] == FormatInt(n) && ("-" + FormatInt(n))[1..] == FormatInt(n);
  }

  lemma {:induction false} ParseDigitsOfDigits(s: string, i: nat)
    requires ParseDigits(s).Some? && i < |s|
    ensures '0' <= s[i] <= '9'
    decreases |s|
  {
    if i < |s| - 1 {
      ParseDigitsOfDigits(s[..|s| - 1], i);
    }
  }

  /** Nothing but decimal digits, at least one, after at most one sign is a number. */
  lemma OnlyNumbersParse(s: string)
    requires ParseInt(s).Some?
    ensures s != [] && (s[0] == '+' || s[0] == '-' ==> |s| > 1)
    ensures s[0] == '+' || s[0] == '-' || '0' <= s[0] <= '9'
    ensures forall i :: 0 < i < |s| ==> '0' <= s[i] <= '9'
  {
    var digits := if s[0] == '+' || s[0] == '-' then s[1..] else s;
    forall i | |s| - |digits| <= i < |s|
      ensures '0' <= s[i] <= '9'
    {
      ParseDigitsOfDigits(digits, i - (|s| - |digits|));
    }
  }

  /** Decimal: appending a digit to a number multiplies it by ten. */
  lemma FormatIntIsDecimal(n: nat, d: nat)
    requires d < 10
    ensures FormatInt(10 * n + d) == (if n == 0 then "" else FormatInt(n)) + ["0123456789"[d]]
  {
    assert (10 * n + d) % 10 == d && (10 * n + d) / 10 == n;
  }
}
