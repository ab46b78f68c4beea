/** The text a client signs: six fields joined by dots. The path may itself contain dots,
    so it is found as what is left between the first two fields and the last three. */
module CanonicalMessage {
  import opened Common

  /** `accountHint` is the optional `x-account-id` header. */
  datatype Request = Request(
    timestamp: string, method_: string, path: string, bodyHash: string, nonce: string, accountHint: Option<string>)

  predicate DotFree(s: string) {
    '.' !in s
  }

  /** Text that parses as an `i64`: an optional sign and digits. */
  predicate IntegerText(s: string) {
    var digits := if s != [] && (s[0] == '-' || s[0] == '+') then s[1..] else s;
    digits != [] && forall i :: 0 <= i < |digits| ==> '0' <= digits[i] <= '9'
  }

  predicate HexText(s: string) {
    |s| == 64 && forall i :: 0 <= i < |s| ==> '0' <= s[i] <= '9' || 'a' <= s[i] <= 'f'
  }

  predicate HexDigits(s: string) {
    forall i :: 0 <= i < |s| ==> '0' <= s[i] <= '9' || 'a' <= s[i] <= 'f' || 'A' <= s[i] <= 'F'
  }

  /** Five groups of hex digits, joined by hyphens. */
  predicate Hyphenated(s: string) {
    && |s| == 36 && s[8] == s[13] == s[18] == s[23] == '-'
    && HexDigits(s[..8]) && HexDigits(s[9..13]) && HexDigits(s[14..18]) && HexDigits(s[19..23]) && HexDigits(s[24..])
  }

  /** The texts that the UUID parser takes: bare, hyphenated, in braces, or as a URN. */
  predicate UuidText(s: string) {
    || (|s| == 32 && HexDigits(s))
    || Hyphenated(s)
    || (|s| == 38 && s[0] == '{' && s[37] == '}' && Hyphenated(s[1..37]))
    || (|s| == 45 && s[..9] == "urn:uuid:" && Hyphenated(s[9..]))
  }

  /** What the relayer has established about a request, or gets from the HTTP grammar, when it
      forms the message. Nothing is assumed about the path and the account. */
  predicate WellFormed(r: Request) {
    && IntegerText(r.timestamp)
    && DotFree(r.method_)
    && HexText(r.bodyHash)
    && UuidText(r.nonce)
  }

  /** A missing account header is signed as the empty text. */
  function SignedAccount(r: Request): string {
    match r.accountHint
    case Some(a) => a
    case None => ""
  }

  function Message(r: Request): string {
    r.timestamp + "." + r.method_ + "." + r.path + "." + r.bodyHash + "." + r.nonce + "." + SignedAccount(r)
  }

  /** A request without the header signs the same text as one whose header is empty. */
  lemma MissingHeaderSignsEmpty(r: Request)
    ensures Message(r.(accountHint := None)) == Message(r.(accountHint := Some("")))
    ensures r.accountHint.None? ==> exists front :: Message(r) == front + "." + r.nonce + "."
  {
    if r.accountHint.None? {
      var front := r.timestamp + "." + r.method_ + "." + r.path + "." + r.bodyHash;
      assert Message(r) == front + "." + r.nonce + ".";
    }
  }

  // ---------- reading the fields back ----------

  function FirstDot(s: string): (i: nat)
    ensures i <= |s|
    ensures i < |s| ==> s[i] == '.'
  {
    if s == [] || s[0] == '.' then 0 else 1 + FirstDot(s[1..])
  }

  function LastDot(s: string): (i: int)
    ensures -1 <= i < |s|
    ensures i >= 0 ==> s[i] == '.'
  {
    if s == [] then -1
    else if s[|s| - 1] == '.' then |s| - 1
    else LastDot(s[..|s| - 1])
  }

  /** The part before the first dot, and the part after it. */
  function SplitFirst(s: string): Option<(string, string)>
  {
    var i := FirstDot(s);
    if i == |s| then None else Some((s[..i], s[i + 1..]))
  }

  function SplitLast(s: string): Option<(string, string)>
  {
    var i := LastDot(s);
    if i < 0 then None else Some((s[..i], s[i + 1..]))
  }

  function Parse(s: string): Option<Request>
  {
    match SplitFirst(s)
    case None => None
    case Some((timestamp, s1)) =>
      match SplitFirst(s1)
      case None => None
      case Some((method_, s2)) =>
        match SplitLast(s2)
        case None => None
        case Some((s3, account)) =>
          match SplitLast(s3)
          case None => None
          case Some((s4, nonce)) =>
            match SplitLast(s4)
            case None => None
            case Some((path, bodyHash)) =>
              Some(Request(timestamp, method_, path, bodyHash, nonce, Some(account)))
  }

  lemma SplitFirstOfJoin(head: string, rest: string)
    requires DotFree(head)
    ensures SplitFirst(head + "." + rest) == Some((head, rest))
  {
    var s := head + "." + rest;
    FirstDotOfJoin(head, rest);
    assert s[..|head|] == head;
    assert s[|head| + 1..] == rest;
  }

  lemma {:induction false} FirstDotOfJoin(head: string, rest: string)
    requires DotFree(head)
    ensures FirstDot(head + "." + rest) == |head|
  {
    var s := head + "." + rest;
    if head == [] {
    } else {
      assert s[0] == head[0] && head[0] in head;
      assert s[1..] == head[1..] + "." + rest;
      FirstDotOfJoin(head[1..], rest);
    }
  }

  lemma {:induction false} LastDotOfJoin(rest: string, tail: string)
    requires DotFree(tail)
    ensures LastDot(rest + "." + tail) == |rest|
  {
    var s := rest + "." + tail;
    if tail == [] {
    } else {
      assert s[|s| - 1] == tail[|tail| - 1] && tail[|tail| - 1] in tail;
      assert s[..|s| - 1] == rest + "." + tail[..|tail| - 1];
      LastDotOfJoin(rest, tail[..|tail| - 1]);
    }
  }

  lemma SplitLastOfJoin(rest: string, tail: string)
    requires DotFree(tail)
    ensures SplitLast(rest + "." + tail) == Some((rest, tail))
  {
    var s := rest + "." + tail;
    LastDotOfJoin(rest, tail);
    assert s[..|rest|] == rest;
    assert s[|rest| + 1..] == tail;
  }

  lemma IntegerTextIsDotFree(s: string)
    requires IntegerText(s)
    ensures DotFree(s)
  {
    if s[0] == '-' || s[0] == '+' {
      assert forall i :: 1 <= i < |s| ==> s[i] == s[1..][i - 1];
    }
  }

  lemma HyphenatedIsDotFree(s: string)
    requires Hyphenated(s)
    ensures DotFree(s)
  {
    assert s == s[..8] + [s[8]] + s[9..13] + [s[13]] + s[14..18] + [s[18]] + s[19..23] + [s[23]] + s[24..];
  }

  lemma UuidTextIsDotFree(s: string)
    requires UuidText(s)
    ensures DotFree(s)
  {
    if |s| == 38 {
      HyphenatedIsDotFree(s[1..37]);
      assert s == [s[0]] + s[1..37] + [s[37]];
    } else if |s| == 45 {
      HyphenatedIsDotFree(s[9..]);
      assert s == "urn:uuid:" + s[9..];
    } else if |s| == 36 {
      HyphenatedIsDotFree(s);
    }
  }

  /** Every field of a request whose account id has no dot is recovered from the message,
      whatever the path is. */
  lemma ParseOfMessage(r: Request)
    requires WellFormed(r) && DotFree(SignedAccount(r))
    ensures Parse(Message(r)) == Some(r.(accountHint := Some(SignedAccount(r))))
  {
    var account := SignedAccount(r);
    var s4 := r.path + "." + r.bodyHash;
    var s3 := s4 + "." + r.nonce;
    var s2 := s3 + "." + account;
    var s1 := r.method_ + "." + s2;
    IntegerTextIsDotFree(r.timestamp);
    UuidTextIsDotFree(r.nonce);
    assert Message(r) == r.timestamp + "." + s1;
    SplitFirstOfJoin(r.timestamp, s1);
    SplitFirstOfJoin(r.method_, s2);
    SplitLastOfJoin(s3, account);
    SplitLastOfJoin(s4, r.nonce);
    SplitLastOfJoin(r.path, r.bodyHash);
  }

  /** Two requests sign the same text exactly when they agree on every field, a missing
      account header counting as an empty one. */
  lemma SameMessageSameRequest(r: Request, t: Request)
    requires WellFormed(r) && DotFree(SignedAccount(r))
    requires WellFormed(t) && DotFree(SignedAccount(t))
    ensures Message(r) == Message(t)
            <==> r.(accountHint := None) == t.(accountHint := None) && SignedAccount(r) == SignedAccount(t)
  {
    ParseOfMessage(r);
    ParseOfMessage(t);
  }
}
