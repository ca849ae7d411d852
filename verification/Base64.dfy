/** URL-safe base64 with its padding stripped and restored (sections 3.2 and 5 of RFC 4648). */
module Base64 {
  import opened Wrappers

  type byte = b: int | 0 <= b < 256

  /** The URL-safe alphabet. */
  function Symbol(v: nat): (c: char)
    requires v < 64
    ensures c != '='
  {
    if v < 26 then ('A' as int + v) as char
    else if v < 52 then ('a' as int + v - 26) as char
    else if v < 62 then ('0' as int + v - 52) as char
    else if v == 62 then '-' else '_'
  }

  function Index(c: char): (v: Option<nat>)
    ensures v.Some? ==> v.value < 64
  {
    if 'A' <= c <= 'Z' then Some(c as int - 'A' as int)
    else if 'a' <= c <= 'z' then Some(c as int - 'a' as int + 26)
    else if '0' <= c <= '9' then Some(c as int - '0' as int + 52)
    else if c == '-' then Some(62)
    else if c == '_' then Some(63)
    else None
  }

  lemma IndexSymbol(v: nat)
    requires v < 64
    ensures Index(Symbol(v)) == Some(v)
  {}

  /** Four symbols for three bytes. */
  function Group(a: byte, b: byte, c: byte): (s: string)
    ensures |s| == 4
  {
    [Symbol(a / 4), Symbol(a % 4 * 16 + b / 16),
     Symbol(b % 16 * 4 + c / 64), Symbol(c % 64)]
  }

  /** The padded encoding. */
  function Encode(bytes: seq<byte>): string
    decreases |bytes|
  {
    if |bytes| == 0 then ""
    else if |bytes| == 1 then Group(bytes[0], 0, 0)[..2] + "=="
    else if |bytes| == 2 then Group(bytes[0], bytes[1], 0)[..3] + "="
    else Group(bytes[0], bytes[1], bytes[2]) + Encode(bytes[3..])
  }

  function StripPadding(s: string): string
    decreases |s|
  {
    if s != "" && s[|s| - 1] == '=' then StripPadding(s[..|s| - 1]) else s
  }

  /** What a cursor carries. */
  function EncodeStripped(bytes: seq<byte>): string {
    StripPadding(Encode(bytes))
  }

  function Equals(n: nat): string {
    seq(n, _ => '=')
  }

  /** `-len % 4` padding characters are added back before decoding. */
  function RestorePadding(s: string): string {
    s + Equals(-|s| % 4)
  }

  function First(v: nat, w: nat): byte
    requires v < 64 && w < 64
  {
    v * 4 + w / 16
  }

  function Second(w: nat, x: nat): byte
    requires w < 64 && x < 64
  {
    w % 16 * 16 + x / 4
  }

  function Third(x: nat, y: nat): byte
    requires x < 64 && y < 64
  {
    x % 4 * 64 + y
  }

  /** The bytes of one group; the last one may be padded. */
  function DecodeGroup(s: string): Option<seq<byte>>
    requires |s| == 4
  {
    var v, w := Index(s[0]), Index(s[1]);
    if v.None? || w.None? then None
    else if s[2] == '=' && s[3] == '=' then Some([First(v.value, w.value)])
    else
      var x := Index(s[2]);
      if x.None? then None
      else if s[3] == '=' then Some([First(v.value, w.value), Second(w.value, x.value)])
      else
        var y := Index(s[3]);
        if y.None? then None
        else Some([First(v.value, w.value), Second(w.value, x.value), Third(x.value, y.value)])
  }

  function Decode(s: string): Option<seq<byte>>
    decreases |s|
  {
    if s == "" then Some([])
    else if |s| < 4 then None
    else
      var first := DecodeGroup(s[..4]);
      if first.None? || (|first.value| < 3 && |s| > 4) then None
      else
        var rest := Decode(s[4..]);
        if rest.None? then None else Some(first.value + rest.value)
  }

  function DecodeStripped(s: string): Option<seq<byte>> {
    Decode(RestorePadding(s))
  }

  /** The bit shuffling of one group and its inverse. */
  lemma GroupBytes(a: byte, b: byte, c: byte)
    ensures a / 4 < 64 && a % 4 * 16 + b / 16 < 64 && b % 16 * 4 + c / 64 < 64
    ensures First(a / 4, a % 4 * 16 + b / 16) == a
    ensures Second(a % 4 * 16 + b / 16, b % 16 * 4 + c / 64) == b
    ensures Third(b % 16 * 4 + c / 64, c % 64) == c
  {}

  lemma GroupDecodes(a: byte, b: byte, c: byte)
    ensures DecodeGroup(Group(a, b, c)) == Some([a, b, c])
  {
    hide First, Second, Third, Symbol, Index;
    GroupBytes(a, b, c);
    IndexSymbol(a / 4);
    IndexSymbol(a % 4 * 16 + b / 16);
    IndexSymbol(b % 16 * 4 + c / 64);
    IndexSymbol(c % 64);
  }

  lemma TwoDecode(a: byte, b: byte)
    ensures DecodeGroup(Group(a, b, 0)[..3] + "=") == Some([a, b])
  {
    hide First, Second, Third, Symbol, Index;
    GroupBytes(a, b, 0);
    IndexSymbol(a / 4);
    IndexSymbol(a % 4 * 16 + b / 16);
    IndexSymbol(b % 16 * 4 + 0 / 64);
  }

  lemma OneDecodes(a: byte)
    ensures DecodeGroup(Group(a, 0, 0)[..2] + "==") == Some([a])
  {
    hide First, Second, Third, Symbol, Index;
    GroupBytes(a, 0, 0);
    IndexSymbol(a / 4);
    IndexSymbol(a % 4 * 16 + 0 / 16);
  }

  lemma {:induction false} DecodeEncode(bytes: seq<byte>)
    ensures Decode(Encode(bytes)) == Some(bytes)
    decreases |bytes|
  {
    hide Group, DecodeGroup;
    if |bytes| == 0 {
    } else if |bytes| == 1 {
      OneDecodes(bytes[0]);
      LastGroup(Encode(bytes));
      assert bytes == [bytes[0]];
    } else if |bytes| == 2 {
      TwoDecode(bytes[0], bytes[1]);
      LastGroup(Encode(bytes));
      assert bytes == [bytes[0], bytes[1]];
    } else {
      GroupDecodes(bytes[0], bytes[1], bytes[2]);
      DecodeEncode(bytes[3..]);
      var group := Group(bytes[0], bytes[1], bytes[2]);
      assert (group + Encode(bytes[3..]))[..4] == group;
      assert [bytes[0], bytes[1], bytes[2]] + bytes[3..] == bytes;
    }
  }

  lemma LastGroup(s: string)
    requires |s| == 4 && DecodeGroup(s).Some?
    ensures Decode(s) == DecodeGroup(s)
  {
    hide DecodeGroup;
    assert s[..4] == s && s[4..] == "";
    assert Decode("") == Some([]) && DecodeGroup(s).value + [] == DecodeGroup(s).value;
  }

  /** The encoding without its padding: four symbols for three bytes, rounded up. */
  function Stripped(bytes: seq<byte>): string
    decreases |bytes|
  {
    if |bytes| == 0 then ""
    else if |bytes| == 1 then Group(bytes[0], 0, 0)[..2]
    else if |bytes| == 2 then Group(bytes[0], bytes[1], 0)[..3]
    else Group(bytes[0], bytes[1], bytes[2]) + Stripped(bytes[3..])
  }

  lemma {:induction false} StrippedLength(bytes: seq<byte>)
    ensures |Stripped(bytes)| == (4 * |bytes| + 2) / 3
    decreases |bytes|
  {
    hide Group;
    if |bytes| > 2 { StrippedLength(bytes[3..]); }
  }

  lemma {:induction false} StrippedSymbols(bytes: seq<byte>)
    ensures forall i :: 0 <= i < |Stripped(bytes)| ==> Stripped(bytes)[i] != '='
    decreases |bytes|
  {
    hide Symbol;
    if |bytes| > 2 { StrippedSymbols(bytes[3..]); }
  }

  /** How many padding characters an encoding of n bytes ends with. */
  function Pads(n: nat): nat {
    if n % 3 == 0 then 0 else 3 - n % 3
  }

  lemma PadsAreMissing(n: nat)
    ensures -((4 * n + 2) / 3) % 4 == Pads(n)
  {
    var q, r := n / 3, n % 3;
    var m := 4 * q + (if r == 0 then 0 else r + 1);
    assert (4 * n + 2) / 3 == m by { Rounding(n, q, r); }
    NegativeRemainder(m, q);
  }

  lemma Rounding(n: nat, q: nat, r: nat)
    requires n == 3 * q + r && r < 3
    ensures (4 * n + 2) / 3 == 4 * q + (if r == 0 then 0 else r + 1)
  {
    var m := 4 * q + (if r == 0 then 0 else r + 1);
    assert 3 * m <= 4 * n + 2 < 3 * m + 3;
  }

  lemma NegativeRemainder(m: int, q: int)
    requires 4 * q <= m < 4 * q + 4
    ensures -m % 4 == if m == 4 * q then 0 else 4 * q + 4 - m
  {
    var rest := if m == 4 * q then 0 else 4 * q + 4 - m;
    var k := if m == 4 * q then -q else -q - 1;
    assert -m == 4 * k + rest && 0 <= rest < 4;
  }

  lemma {:induction false} EncodeIsPadded(bytes: seq<byte>)
    ensures Encode(bytes) == Stripped(bytes) + Equals(Pads(|bytes|))
    decreases |bytes|
  {
    hide Group;
    if |bytes| > 2 {
      EncodeIsPadded(bytes[3..]);
      assert Pads(|bytes[3..]|) == Pads(|bytes|);
    }
  }

  lemma {:induction false} StripEquals(s: string, n: nat)
    requires forall i :: 0 <= i < |s| ==> s[i] != '='
    ensures StripPadding(s + Equals(n)) == s
  {
    if n == 0 {
      assert s + Equals(n) == s;
    } else {
      assert (s + Equals(n))[..|s + Equals(n)| - 1] == s + Equals(n - 1);
      StripEquals(s, n - 1);
    }
  }

  /** Stripping the padding loses nothing: it is restored from the length alone, and the stripped
      text is four symbols for three bytes, rounded up. */
  lemma DecodeStrippedEncode(bytes: seq<byte>)
    ensures DecodeStripped(EncodeStripped(bytes)) == Some(bytes)
    ensures |EncodeStripped(bytes)| == (4 * |bytes| + 2) / 3
  {
    hide Stripped, Encode, Decode, Equals, StripPadding, Pads;
    EncodeIsPadded(bytes);
    StrippedLength(bytes);
    StrippedSymbols(bytes);
    PadsAreMissing(|bytes|);
    StripEquals(Stripped(bytes), Pads(|bytes|));
    DecodeEncode(bytes);
  }

  // ---- Which text that is ----

  /** The URL-safe alphabet: letters, digits, minus and underscore. */
  predicate Stands(c: char, v: nat) {
    || ('A' <= c <= 'Z' && v == c as nat - 'A' as nat)
    || ('a' <= c <= 'z' && v == c as nat - 'a' as nat + 26)
    || ('0' <= c <= '9' && v == c as nat - '0' as nat + 52)
    || (c == '-' && v == 62) || (c == '_' && v == 63)
  }

  function ByteAt(bytes: seq<byte>, i: nat): (b: nat)
    ensures b < 256
  {
    if i < |bytes| then bytes[i] as nat else 0
  }

  /** The six bits that start at bit 6 k, of a byte and the one after it. */
  function SixBits(offset: nat, first: nat, second: nat): nat {
    var window := 256 * first + second;
    if offset == 0 then window / 1024 % 64
    else if offset == 2 then window / 256 % 64
    else if offset == 4 then window / 64 % 64
    else window / 16 % 64
  }

  /** Six bits of the input, from bit 6 k on; zero bits follow its end. */
  function Sextet(bytes: seq<byte>, k: nat): nat {
    SixBits(6 * k % 8, ByteAt(bytes, 6 * k / 8), ByteAt(bytes, 6 * k / 8 + 1))
  }

  lemma Divided(x: nat, q: nat, r: nat)
    ensures x == 16 * q + r && r < 16 ==> x / 16 == q
    ensures x == 64 * q + r && r < 64 ==> x / 64 == q && x % 64 == r
    ensures x == 256 * q + r && r < 256 ==> x / 256 == q
    ensures x == 1024 * q + r && r < 1024 ==> x / 1024 == q
  {}

  lemma FirstBits(a: nat, b: nat)
    requires a < 256 && b < 256
    ensures SixBits(0, a, b) == a / 4
  {
    Divided(256 * a + b, a / 4, 256 * (a % 4) + b);
  }

  lemma SecondBits(a: nat, b: nat)
    requires a < 256 && b < 256
    ensures SixBits(6, a, b) == a % 4 * 16 + b / 16
  {
    Divided(256 * a + b, 16 * a + b / 16, b % 16);
    Divided(16 * a + b / 16, a / 4, a % 4 * 16 + b / 16);
  }

  lemma ThirdBits(b: nat, c: nat)
    requires b < 256 && c < 256
    ensures SixBits(4, b, c) == b % 16 * 4 + c / 64
  {
    Divided(256 * b + c, 4 * b + c / 64, c % 64);
    Divided(4 * b + c / 64, b / 16, b % 16 * 4 + c / 64);
  }

  lemma LastBits(c: nat, d: nat)
    requires c < 256 && d < 256
    ensures SixBits(2, c, d) == c % 64
  {
    Divided(256 * c + d, c, d);
  }

  lemma SymbolStands(v: nat)
    requires v < 64
    ensures Stands(Symbol(v), v)
  {}

  lemma FirstSextets(bytes: seq<byte>)
    ensures Sextet(bytes, 0) == ByteAt(bytes, 0) / 4
    ensures Sextet(bytes, 1) == ByteAt(bytes, 0) % 4 * 16 + ByteAt(bytes, 1) / 16
    ensures Sextet(bytes, 2) == ByteAt(bytes, 1) % 16 * 4 + ByteAt(bytes, 2) / 64
    ensures Sextet(bytes, 3) == ByteAt(bytes, 2) % 64
  {
    hide SixBits, ByteAt;
    FirstBits(ByteAt(bytes, 0), ByteAt(bytes, 1));
    SecondBits(ByteAt(bytes, 0), ByteAt(bytes, 1));
    ThirdBits(ByteAt(bytes, 1), ByteAt(bytes, 2));
    LastBits(ByteAt(bytes, 2), ByteAt(bytes, 3));
  }

  lemma GroupStands(a: byte, b: byte, c: byte)
    ensures Stands(Group(a, b, c)[0], a as nat / 4)
    ensures Stands(Group(a, b, c)[1], a as nat % 4 * 16 + b as nat / 16)
    ensures Stands(Group(a, b, c)[2], b as nat % 16 * 4 + c as nat / 64)
    ensures Stands(Group(a, b, c)[3], c as nat % 64)
  {
    hide Symbol, Stands;
    SymbolStands(a / 4);
    SymbolStands(a % 4 * 16 + b / 16);
    SymbolStands(b % 16 * 4 + c / 64);
    SymbolStands(c % 64);
  }

  lemma GroupIs(bytes: seq<byte>, k: nat)
    requires k < 4
    ensures Stands(Group(ByteAt(bytes, 0) as byte, ByteAt(bytes, 1) as byte, ByteAt(bytes, 2) as byte)[k],
                   Sextet(bytes, k))
  {
    hide Stands, Sextet, ByteAt, Group;
    FirstSextets(bytes);
    GroupStands(ByteAt(bytes, 0) as byte, ByteAt(bytes, 1) as byte, ByteAt(bytes, 2) as byte);
  }

  lemma SextetLater(bytes: seq<byte>, k: nat)
    requires |bytes| >= 3 && k >= 4
    ensures Sextet(bytes, k) == Sextet(bytes[3..], k - 4)
  {
    hide SixBits;
    assert 6 * k == 6 * (k - 4) + 24;
    assert 6 * k / 8 == 6 * (k - 4) / 8 + 3 && 6 * k % 8 == 6 * (k - 4) % 8;
  }

  lemma {:induction false} StrippedIs(bytes: seq<byte>, k: nat)
    requires k < |Stripped(bytes)|
    ensures Stands(Stripped(bytes)[k], Sextet(bytes, k))
    decreases |bytes|
  {
    hide Group, Sextet, Stands;
    if k < 4 {
      GroupIs(bytes, k);
    } else {
      SextetLater(bytes, k);
      StrippedIs(bytes[3..], k - 4);
    }
  }

  /** The k-th character stands for the k-th six bits, in the URL-safe alphabet. */
  lemma EncodedIs(bytes: seq<byte>, k: nat)
    requires k < |EncodeStripped(bytes)|
    ensures Stands(EncodeStripped(bytes)[k], Sextet(bytes, k))
  {
    hide Stripped, Encode, Equals, StripPadding, Pads, Sextet, Stands;
    EncodeIsPadded(bytes);
    StrippedSymbols(bytes);
    StripEquals(Stripped(bytes), Pads(|bytes|));
    StrippedIs(bytes, k);
  }
}
