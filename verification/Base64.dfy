/** Base64 as RFC 4648 defines it: section 4 (standard alphabet, padded) is what the
    relayer stores in a queued job, section 5 (URL alphabet, unpadded) is what the
    sidecar uses for Walrus blob ids. Decoding is strict, as in the engine the relayer
    calls: unused bits must be zero and padding must be present and minimal. */
module Base64 {
  import opened Common
  import opened ByteOrder

  type Sextet = x: int | 0 <= x < 64

  datatype Alphabet = Standard | Url

  // ---------- bytes <-> sextets ----------

  function Sextets(b: seq<Byte>): (s: seq<Sextet>)
    ensures |s| == (4 * |b| + 2) / 3
  {
    if |b| == 0 then []
    else if |b| == 1 then [b[0] / 4, b[0] % 4 * 16]
    else if |b| == 2 then [b[0] / 4, b[0] % 4 * 16 + b[1] / 16, b[1] % 16 * 4]
    else
      [b[0] / 4, b[0] % 4 * 16 + b[1] / 16, b[1] % 16 * 4 + b[2] / 64, b[2] % 64] + Sextets(b[3..])
  }

  function Bytes(s: seq<Sextet>): Option<seq<Byte>>
  {
    if |s| == 0 then Some([])
    else if |s| == 1 then None
    else
      var x: Byte := (s[0] as int) * 4 + s[1] / 16;
      if |s| == 2 then
        if s[1] % 16 == 0 then Some([x]) else None
      else
        var y: Byte := (s[1] as int) % 16 * 16 + s[2] / 4;
        if |s| == 3 then
          if s[2] % 4 == 0 then Some([x, y]) else None
        else
          var z: Byte := (s[2] as int) % 4 * 64 + s[3];
          match Bytes(s[4..])
          case None => None
          case Some(rest) => Some([x, y, z] + rest)
  }

  lemma {:induction false} BytesOfSextets(b: seq<Byte>)
    ensures Bytes(Sextets(b)) == Some(b)
  {
    var s := Sextets(b);
    if |b| == 1 {
      assert Bytes(s).value == b;
    } else if |b| == 2 {
      assert Bytes(s).value == b;
    } else if |b| >= 3 {
      BytesOfSextets(b[3..]);
      assert s[4..] == Sextets(b[3..]);
      assert Bytes(s).value == b;
    }
  }

  /** Three bytes and the four sextets that carry them. */
  lemma Group(s0: Sextet, s1: Sextet, s2: Sextet, s3: Sextet, x: Byte, y: Byte, z: Byte)
    requires x == (s0 as int) * 4 + s1 / 16 && y == (s1 as int) % 16 * 16 + s2 / 4 && z == (s2 as int) % 4 * 64 + s3
    ensures x / 4 == s0 && x % 4 * 16 + y / 16 == s1 && y % 16 * 4 + z / 64 == s2 && z % 64 == s3
  {
  }

  lemma BytesStep(s: seq<Sextet>) returns (x: Byte, y: Byte, z: Byte)
    requires |s| >= 4 && Bytes(s).Some?
    ensures Bytes(s[4..]).Some? && Bytes(s).value == [x, y, z] + Bytes(s[4..]).value
    ensures x / 4 == s[0] && x % 4 * 16 + y / 16 == s[1] && y % 16 * 4 + z / 64 == s[2] && z % 64 == s[3]
  {
    x := (s[0] as int) * 4 + s[1] / 16;
    y := (s[1] as int) % 16 * 16 + s[2] / 4;
    z := (s[2] as int) % 4 * 64 + s[3];
    Group(s[0], s[1], s[2], s[3], x, y, z);
  }

  lemma SextetsStep(x: Byte, y: Byte, z: Byte, rest: seq<Byte>)
    ensures Sextets([x, y, z] + rest)
         == [x / 4, x % 4 * 16 + y / 16, y % 16 * 4 + z / 64, z % 64] + Sextets(rest)
  {
    assert ([x, y, z] + rest)[3..] == rest;
  }

  lemma ShortGroup(s0: Sextet, s1: Sextet, s2: Sextet, x: Byte, y: Byte)
    requires x == (s0 as int) * 4 + s1 / 16 && y == (s1 as int) % 16 * 16 + s2 / 4
    ensures x / 4 == s0 && (s1 % 16 == 0 ==> x % 4 * 16 == s1)
    ensures s2 % 4 == 0 ==> x % 4 * 16 + y / 16 == s1 && y % 16 * 4 == s2
  {
  }

  lemma ShortBytes(s: seq<Sextet>)
    requires |s| < 4 && Bytes(s).Some?
    ensures |s| != 1
    ensures |s| == 0 ==> Bytes(s) == Some([])
    ensures |s| == 2 ==> s[1] % 16 == 0 && Bytes(s) == Some([(s[0] as int) * 4 + s[1] / 16])
    ensures |s| == 3 ==> s[2] % 4 == 0
                         && Bytes(s) == Some([(s[0] as int) * 4 + s[1] / 16, (s[1] as int) % 16 * 16 + s[2] / 4])
  {
  }

  lemma FewSextets(x: Byte, y: Byte)
    ensures Sextets([]) == [] && Sextets([x]) == [x / 4, x % 4 * 16]
    ensures Sextets([x, y]) == [x / 4, x % 4 * 16 + y / 16, y % 16 * 4]
  {
  }

  lemma ShortSextets(s: seq<Sextet>)
    requires |s| < 4 && Bytes(s).Some?
    ensures Sextets(Bytes(s).value) == s
  {
    hide Bytes, Sextets;
    ShortBytes(s);
    if |s| == 0 {
      FewSextets(0, 0);
    } else {
      var x: Byte := (s[0] as int) * 4 + s[1] / 16;
      var s2 := if |s| == 2 then 0 else s[2];
      var y: Byte := (s[1] as int) % 16 * 16 + s2 / 4;
      ShortGroup(s[0], s[1], s2, x, y);
      FewSextets(x, y);
    }
  }

  lemma {:induction false} SextetsOfBytes(s: seq<Sextet>)
    requires Bytes(s).Some?
    ensures Sextets(Bytes(s).value) == s
  {
    hide Bytes, Sextets;
    if |s| < 4 {
      ShortSextets(s);
    } else {
      var x, y, z := BytesStep(s);
      SextetsOfBytes(s[4..]);
      SextetsStep(x, y, z, Bytes(s[4..]).value);
      assert s == [s[0], s[1], s[2], s[3]] + s[4..];
    }
  }

  // ---------- sextets <-> characters ----------

  function CharOf(a: Alphabet, v: Sextet): char
  {
    if v < 26 then (('A' as int) + v) as char
    else if v < 52 then (('a' as int) + v - 26) as char
    else if v < 62 then (('0' as int) + v - 52) as char
    else if v == 62 then (if a.Standard? then '+' else '-')
    else (if a.Standard? then '/' else '_')
  }

  function ValueOf(a: Alphabet, c: char): Option<Sextet>
  {
    if 'A' <= c <= 'Z' then Some(c as int - 'A' as int)
    else if 'a' <= c <= 'z' then Some(c as int - 'a' as int + 26)
    else if '0' <= c <= '9' then Some(c as int - '0' as int + 52)
    else if c == (if a.Standard? then '+' else '-') then Some(62)
    else if c == (if a.Standard? then '/' else '_') then Some(63)
    else None
  }

  lemma CharRoundTrip(a: Alphabet, v: Sextet)
    ensures ValueOf(a, CharOf(a, v)) == Some(v)
    ensures CharOf(a, v) != '='
  {
  }

  function Text(a: Alphabet, s: seq<Sextet>): (t: string)
    ensures |t| == |s|
  {
    if s == [] then [] else [CharOf(a, s[0])] + Text(a, s[1..])
  }

  function Untext(a: Alphabet, t: string): (s: Option<seq<Sextet>>)
    ensures s.Some? ==> |s.value| == |t|
  {
    if t == [] then Some([])
    else
      match (ValueOf(a, t[0]), Untext(a, t[1..]))
      case (Some(v), Some(rest)) => Some([v] + rest)
      case _ => None
  }

  lemma {:induction false} UntextOfText(a: Alphabet, s: seq<Sextet>)
    ensures Untext(a, Text(a, s)) == Some(s)
    ensures forall c :: c in Text(a, s) ==> c != '='
  {
    if s == [] {
    } else {
      UntextOfText(a, s[1..]);
      var t := Text(a, s);
      assert t[1..] == Text(a, s[1..]);
      CharRoundTrip(a, s[0]);
      assert Untext(a, t).value == s;
    }
  }

  lemma {:induction false} TextOfUntext(a: Alphabet, t: string)
    requires Untext(a, t).Some?
    ensures Text(a, Untext(a, t).value) == t
  {
    if t == [] {
    } else {
      TextOfUntext(a, t[1..]);
      assert Untext(a, t).value[1..] == Untext(a, t[1..]).value;
    }
  }

  // ---------- section 5: URL alphabet, no padding ----------

  function EncodeUrl(b: seq<Byte>): string
  {
    Text(Url, Sextets(b))
  }

  function DecodeUrl(t: string): Option<seq<Byte>>
  {
    match Untext(Url, t)
    case None => None
    case Some(s) => Bytes(s)
  }

  lemma UrlRoundTrip(b: seq<Byte>)
    ensures DecodeUrl(EncodeUrl(b)) == Some(b)
    ensures |EncodeUrl(b)| == (4 * |b| + 2) / 3
  {
    UntextOfText(Url, Sextets(b));
    BytesOfSextets(b);
  }

  // ---------- section 4: standard alphabet, padded to a multiple of four ----------

  function Padding(n: nat): string
    requires n % 4 != 1
  {
    if n % 4 == 0 then "" else if n % 4 == 2 then "==" else "="
  }

  function Encode(b: seq<Byte>): string
  {
    var s := Sextets(b);
    Text(Standard, s) + Padding(|s|)
  }

  /** The text without its trailing padding: at most two '=' are taken off. */
  function Unpad(t: string): string
  {
    if |t| >= 2 && t[|t| - 1] == '=' && t[|t| - 2] == '=' then t[..|t| - 2]
    else if |t| >= 1 && t[|t| - 1] == '=' then t[..|t| - 1]
    else t
  }

  function Decode(t: string): Option<seq<Byte>>
  {
    if |t| % 4 != 0 then None
    else
      match Untext(Standard, Unpad(t))
      case None => None
      case Some(s) => Bytes(s)
  }

  lemma PaddedLength(n: nat)
    requires n % 4 != 1
    ensures (n + |Padding(n)|) % 4 == 0
    ensures Padding(n) == "" || Padding(n) == "=" || Padding(n) == "=="
  {
  }

  lemma UnpadJoin(body: string, padding: string)
    requires '=' !in body && (padding == "" || padding == "=" || padding == "==")
    requires padding == "=" ==> body != []
    ensures Unpad(body + padding) == body
  {
    var t := body + padding;
    assert t[..|body|] == body;
    if body != [] {
      assert t[|body| - 1] == body[|body| - 1] && body[|body| - 1] in body;
    }
  }

  /** Taking the padding off what padding was put on. */
  lemma UnpadPadded(body: string)
    requires |body| % 4 != 1 && '=' !in body
    ensures Unpad(body + Padding(|body|)) == body
    ensures |body + Padding(|body|)| % 4 == 0
  {
    PaddedLength(|body|);
    UnpadJoin(body, Padding(|body|));
  }

  /** A padded text is its unpadded part with exactly the padding that part asks for. */
  lemma PaddedUnpad(t: string)
    requires |t| % 4 == 0
    ensures |Unpad(t)| % 4 != 1
    ensures t == Unpad(t) + Padding(|Unpad(t)|)
  {
  }

  lemma NeverOneOver(n: nat)
    ensures (4 * n + 2) / 3 % 4 != 1
  {
    var q, r := n / 3, n % 3;
    assert n == 3 * q + r;
    assert 4 * n + 2 == 3 * (4 * q) + (4 * r + 2);
    assert (4 * n + 2) / 3 == 4 * q + (4 * r + 2) / 3;
  }

  /** Whatever the route handler encodes, the worker decodes to the same bytes. */
  lemma DecodeEncode(b: seq<Byte>)
    ensures Decode(Encode(b)) == Some(b)
  {
    hide Sextets, Bytes, Text, Untext, Unpad, Padding;
    var s := Sextets(b);
    NeverOneOver(|b|);
    UntextOfText(Standard, s);
    BytesOfSextets(b);
    UnpadPadded(Text(Standard, s));
  }

  /** Decoding accepts nothing but encodings: every byte string has one text. */
  lemma EncodeDecode(t: string)
    requires Decode(t).Some?
    ensures Encode(Decode(t).value) == t
  {
    hide Sextets, Bytes, Text, Untext, Unpad, Padding;
    TextOfUntext(Standard, Unpad(t));
    SextetsOfBytes(Untext(Standard, Unpad(t)).value);
    PaddedUnpad(t);
  }

  // ---------- the encoding as RFC 4648 describes it ----------

  /** The letters, the digits and two signs, in this order. */
  lemma Alphabets(v: Sextet)
    ensures forall a :: CharOf(a, 0) == 'A' && CharOf(a, 26) == 'a' && CharOf(a, 52) == '0'
    ensures forall a :: v !in {25, 51, 61, 62, 63} ==> CharOf(a, v + 1) as int == CharOf(a, v) as int + 1
    ensures CharOf(Standard, 62) == '+' && CharOf(Standard, 63) == '/' && CharOf(Url, 62) == '-' && CharOf(Url, 63) == '_'
  {
  }

  /** The k-th group of three bytes as one number; zeros stand for bytes that are missing. */
  function Bits(b: seq<Byte>, k: nat): int
    requires 3 * k < |b|
  {
    b[3 * k] as int * 0x1_0000 + (if 3 * k + 1 < |b| then b[3 * k + 1] as int * 0x100 else 0)
    + (if 3 * k + 2 < |b| then b[3 * k + 2] as int else 0)
  }

  /** Four sextets of a list, with zeros for those past its end. */
  function Four(s: seq<Sextet>, k: nat): (p: seq<Sextet>)
    requires 4 * k + 1 < |s|
    ensures |p| == 4
  {
    [s[4 * k], s[4 * k + 1], if 4 * k + 2 < |s| then s[4 * k + 2] else 0, if 4 * k + 3 < |s| then s[4 * k + 3] else 0]
  }

  function Number(p: seq<Sextet>): int
    requires |p| == 4
  {
    p[0] as int * 0x4_0000 + p[1] as int * 0x1000 + p[2] as int * 0x40 + p[3] as int
  }

  lemma FourDropped(s: seq<Sextet>, k: nat)
    requires k >= 1 && 4 * k + 1 < |s|
    ensures Four(s, k) == Four(s[4..], k - 1)
  {
  }

  /** A group that lacks bytes has as many sextets as bytes, and one more. */
  lemma SextetCount(b: seq<Byte>, k: nat)
    requires 3 * k < |b|
    ensures |Sextets(b)| >= 4 * k + 2
    ensures |b| < 3 * k + 3 ==> |Sextets(b)| == k + |b| + 1
    ensures |b| >= 3 * k + 3 ==> |Sextets(b)| >= 4 * k + 4
  {
    hide Sextets;
  }

  lemma FirstGroup(b: seq<Byte>)
    requires b != []
    ensures |b| >= 3 ==> Sextets(b)[4..] == Sextets(b[3..])
    ensures |Sextets(b)| >= 2 && Bits(b, 0) == Number(Four(Sextets(b), 0))
  {
    hide Sextets;
    if |b| == 1 {
      FewSextets(b[0], 0);
      assert b == [b[0]];
    } else if |b| == 2 {
      FewSextets(b[0], b[1]);
      assert b == [b[0], b[1]];
    } else {
      SextetsStep(b[0], b[1], b[2], b[3..]);
      assert b == [b[0], b[1], b[2]] + b[3..];
    }
  }

  lemma {:induction false} GroupBits(b: seq<Byte>, k: nat)
    requires 3 * k < |b|
    ensures 4 * k + 1 < |Sextets(b)| && Bits(b, k) == Number(Four(Sextets(b), k))
    decreases k
  {
    hide Sextets, Number, Four;
    FirstGroup(b);
    SextetCount(b, k);
    if k == 0 {
    } else {
      GroupBits(b[3..], k - 1);
      assert Bits(b[3..], k - 1) == Bits(b, k);
      FourDropped(Sextets(b), k);
    }
  }

  lemma {:induction false} TextAt(a: Alphabet, s: seq<Sextet>, i: nat)
    requires i < |s|
    ensures Text(a, s)[i] == CharOf(a, s[i])
  {
    if i == 0 {
    } else {
      TextAt(a, s[1..], i - 1);
    }
  }

  /** A text is whole groups of four: a character for each sextet, and '=' to fill the last group. */
  lemma EncodedChars(b: seq<Byte>, i: nat)
    ensures |Encode(b)| == (|b| + 2) / 3 * 4
    ensures i < |Sextets(b)| ==> i < |Encode(b)| && Encode(b)[i] == CharOf(Standard, Sextets(b)[i])
    ensures |Sextets(b)| <= i < |Encode(b)| ==> Encode(b)[i] == '='
  {
    hide Sextets, Text, CharOf;
    if i < |Sextets(b)| {
      TextAt(Standard, Sextets(b), i);
    }
  }

  /** The k-th group of three bytes becomes four characters: the digits of its number to the base 64,
      as places in the alphabet, with '=' where only missing bytes are meant. */
  lemma EncodesInGroups(b: seq<Byte>, k: nat) returns (p: seq<Sextet>)
    requires 3 * k < |b|
    ensures |Encode(b)| == (|b| + 2) / 3 * 4 && |p| == 4
    ensures Bits(b, k) == p[0] as int * 0x4_0000 + p[1] as int * 0x1000 + p[2] as int * 0x40 + p[3] as int
    ensures forall i :: 0 <= i < 4 ==>
              Encode(b)[4 * k + i] == if i <= |b| - 3 * k then CharOf(Standard, p[i]) else '='
  {
    hide Sextets, Encode, Bits, CharOf;
    GroupBits(b, k);
    SextetCount(b, k);
    p := Four(Sextets(b), k);
    EncodedChars(b, 4 * k);
    EncodedChars(b, 4 * k + 1);
    EncodedChars(b, 4 * k + 2);
    EncodedChars(b, 4 * k + 3);
  }
}
