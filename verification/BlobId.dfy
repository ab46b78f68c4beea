/** How the sidecar turns the 256-bit blob id it reads from the chain, printed in decimal,
    into the identifier Walrus uses: the 32 little-endian bytes in unpadded base64url. */
module BlobId {
  import opened ByteOrder
  import opened Base64

  const ID_BYTES: nat := 32
  const HEX_DIGITS: nat := 64
  const LONGEST_UNCONVERTED: nat := 20

  ghost predicate IsU256(n: nat) {
    n < Pow(2, 256)
  }

  // ---------- the conversion, step by step ----------

  predicate IsDigits(s: string) {
    s != [] && forall i :: 0 <= i < |s| ==> '0' <= s[i] <= '9'
  }

  function DecimalValue(s: string): nat
    requires forall i :: 0 <= i < |s| ==> '0' <= s[i] <= '9'
  {
    if s == [] then 0
    else 10 * DecimalValue(s[..|s| - 1]) + (s[|s| - 1] as int - '0' as int)
  }

  function HexChar(d: nat): char
    requires d < 16
  {
    if d < 10 then (('0' as int) + d) as char else (('a' as int) + d - 10) as char
  }

  function HexDigit(c: char): (d: nat)
    ensures d < 16
  {
    if '0' <= c <= '9' then c as int - '0' as int
    else if 'a' <= c <= 'f' then c as int - 'a' as int + 10
    else 0
  }

  function Hex(n: nat): string
  {
    if n < 16 then [HexChar(n)] else Hex(n / 16) + [HexChar(n % 16)]
  }

  function Zeros(n: nat): (z: string)
    ensures |z| == n
  {
    if n == 0 then [] else Zeros(n - 1) + ['0']
  }

  function PadStart(s: string, width: nat): string
  {
    if |s| >= width then s else Zeros(width - |s|) + s
  }

  /** Consecutive pairs of hex digits as bytes, most significant first. */
  function Pairs(hex: string): (b: seq<Byte>)
    requires |hex| % 2 == 0
    ensures |b| == |hex| / 2
  {
    if hex == [] then []
    else
      var n := |hex|;
      Pairs(hex[..n - 2]) + [16 * HexDigit(hex[n - 2]) + HexDigit(hex[n - 1])]
  }

  function Reverse(b: seq<Byte>): (r: seq<Byte>)
    ensures |r| == |b|
  {
    if b == [] then [] else [b[|b| - 1]] + Reverse(b[..|b| - 1])
  }

  /** The id that `/walrus/query-blobs` reports for the decimal text it found on chain. */
  function Convert(raw: string): string
    requires IsDigits(raw) ==> IsU256(DecimalValue(raw))
  {
    if IsDigits(raw) && |raw| > LONGEST_UNCONVERTED then
      HexFits(DecimalValue(raw));
      EncodeUrl(Reverse(Pairs(PadStart(Hex(DecimalValue(raw)), HEX_DIGITS))))
    else raw
  }

  // ---------- what the identifier is ----------

  /** Walrus's own name for the blob numbered `n`. */
  function WalrusId(n: nat): string {
    EncodeUrl(LittleEndian(n, ID_BYTES))
  }

  // ---------- number facts ----------

  lemma {:induction false} PowSixteen(k: nat)
    ensures Pow(2, 4 * k) == Pow(16, k)
  {
    if k == 0 {
    } else {
      PowSixteen(k - 1);
      assert Pow(2, 4 * k) == 2 * Pow(2, 4 * k - 1);
      assert Pow(2, 4 * k - 1) == 2 * Pow(2, 4 * k - 2);
      assert Pow(2, 4 * k - 2) == 2 * Pow(2, 4 * k - 3);
    }
  }

  lemma {:induction false} HexLength(n: nat, k: nat)
    requires k >= 1 && n < Pow(16, k)
    ensures |Hex(n)| <= k
  {
    if n >= 16 {
      assert k > 1;
      HexLength(n / 16, k - 1);
    }
  }

  lemma HexFits(n: nat)
    requires IsU256(n)
    ensures |PadStart(Hex(n), HEX_DIGITS)| == HEX_DIGITS
  {
    PowSixteen(64);
    HexLength(n, 64);
  }

  function HexValue(hex: string): nat
  {
    if hex == [] then 0 else 16 * HexValue(hex[..|hex| - 1]) + HexDigit(hex[|hex| - 1])
  }

  lemma {:induction false} HexValueOfHex(n: nat)
    ensures HexValue(Hex(n)) == n
  {
    var h := Hex(n);
    if n < 16 {
      assert h[..0] == [];
    } else {
      HexValueOfHex(n / 16);
      assert h[..|h| - 1] == Hex(n / 16);
    }
  }

  lemma {:induction false} HexValuePadded(zeros: nat, s: string)
    ensures HexValue(Zeros(zeros) + s) == HexValue(s)
  {
    var t := Zeros(zeros) + s;
    if s != [] {
      assert t[..|t| - 1] == Zeros(zeros) + s[..|s| - 1];
      HexValuePadded(zeros, s[..|s| - 1]);
    } else if zeros > 0 {
      assert t[..|t| - 1] == Zeros(zeros - 1) + s;
      HexValuePadded(zeros - 1, s);
    }
  }

  /** Reversing the byte pairs of a hex text gives its little-endian value. */
  lemma {:induction false} ReversedPairsValue(hex: string)
    requires |hex| % 2 == 0
    ensures LittleEndianValue(Reverse(Pairs(hex))) == HexValue(hex)
  {
    if hex == [] {
      assert Pairs(hex) == [] && Reverse([]) == [];
    } else {
      hide Pairs, Reverse, HexValue, LittleEndianValue;
      var n := |hex|;
      ReversedPairsValue(hex[..n - 2]);
      LastPair(hex);
      TwoDigits(hex);
    }
  }

  /** The last pair comes first after reversing. */
  lemma LastPair(hex: string)
    requires |hex| % 2 == 0 && hex != []
    ensures var n := |hex|;
            LittleEndianValue(Reverse(Pairs(hex)))
            == 16 * HexDigit(hex[n - 2]) + HexDigit(hex[n - 1]) + 256 * LittleEndianValue(Reverse(Pairs(hex[..n - 2])))
  {
    hide HexDigit;
    var b, n := Pairs(hex), |hex|;
    assert b[..|b| - 1] == Pairs(hex[..n - 2]);
    assert Reverse(b)[1..] == Reverse(b[..|b| - 1]);
  }

  lemma TwoDigits(hex: string)
    requires |hex| >= 2
    ensures var n := |hex|;
            HexValue(hex) == 256 * HexValue(hex[..n - 2]) + 16 * HexDigit(hex[n - 2]) + HexDigit(hex[n - 1])
  {
    hide HexDigit;
    assert hex[..|hex| - 1][..|hex| - 2] == hex[..|hex| - 2];
  }

  // ---------- the conversion names the right blob ----------

  /** Every long enough decimal converts to Walrus's own id: 43 characters that decode,
      read little-endian, to the number on chain. */
  lemma ConvertCorrect(raw: string)
    requires IsDigits(raw) && |raw| > LONGEST_UNCONVERTED && IsU256(DecimalValue(raw))
    ensures Convert(raw) == WalrusId(DecimalValue(raw))
    ensures |Convert(raw)| == 43
    ensures DecodeUrl(Convert(raw)).Some?
    ensures LittleEndianValue(DecodeUrl(Convert(raw)).value) == DecimalValue(raw)
  {
    var n := DecimalValue(raw);
    HexFits(n);
    var hex := PadStart(Hex(n), HEX_DIGITS);
    var bytes := Reverse(Pairs(hex));
    HexValueOfHex(n);
    if |Hex(n)| < HEX_DIGITS {
      HexValuePadded(HEX_DIGITS - |Hex(n)|, Hex(n));
    }
    ReversedPairsValue(hex);
    LittleEndianUnique(bytes);
    UrlRoundTrip(bytes);
  }

  // ---------- distinct blobs keep distinct names ----------

  /** Decimal text as the chain prints it: no leading zero. */
  predicate Canonical(s: string) {
    IsDigits(s) && (|s| > 1 ==> s[0] != '0')
  }

  lemma {:induction false} CanonicalLower(s: string)
    requires Canonical(s) && s[0] != '0'
    ensures DecimalValue(s) >= 1
    ensures |s| > 1 ==> DecimalValue(s) >= 10
  {
    if |s| > 1 {
      CanonicalLower(s[..|s| - 1]);
    }
  }

  lemma {:induction false} CanonicalUnique(s: string, t: string)
    requires Canonical(s) && Canonical(t) && DecimalValue(s) == DecimalValue(t)
    ensures s == t
  {
    if |s| > 1 {
      CanonicalLower(s);
    }
    if |t| > 1 {
      CanonicalLower(t);
    }
    if |s| > 1 && |t| > 1 {
      CanonicalUnique(s[..|s| - 1], t[..|t| - 1]);
      assert s == s[..|s| - 1] + [s[|s| - 1]];
      assert t == t[..|t| - 1] + [t[|t| - 1]];
    } else {
      assert |s| == 1 && |t| == 1;
      assert s[..0] == [] && t[..0] == [];
      assert s[0] == t[0];
    }
  }

  /** Converted and unconverted ids never collide, so no two blobs of one owner are
      reported under the same name. */
  lemma ConvertInjective(s: string, t: string)
    requires Canonical(s) && IsU256(DecimalValue(s))
    requires Canonical(t) && IsU256(DecimalValue(t))
    requires Convert(s) == Convert(t)
    ensures s == t
  {
    if |s| > LONGEST_UNCONVERTED {
      ConvertCorrect(s);
    }
    if |t| > LONGEST_UNCONVERTED {
      ConvertCorrect(t);
    }
    if |s| > LONGEST_UNCONVERTED && |t| > LONGEST_UNCONVERTED {
      CanonicalUnique(s, t);
    }
  }

  /** The reported name is the one an upload returned exactly when the decimal text has
      more than twenty digits; a shorter one is passed through as it is. */
  lemma ReportedNameIsWalrusName(raw: string)
    requires IsDigits(raw) && IsU256(DecimalValue(raw))
    ensures Convert(raw) == WalrusId(DecimalValue(raw)) <==> |raw| > LONGEST_UNCONVERTED
  {
    if |raw| > LONGEST_UNCONVERTED {
      ConvertCorrect(raw);
    } else {
      UrlRoundTrip(LittleEndian(DecimalValue(raw), ID_BYTES));
    }
  }
}
