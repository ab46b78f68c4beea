/** Which signed texts stand for more than one request. The account id comes from a header and may
    hold dots, so the pieces between the dots can be dealt out to the fields in several ways. */
module Ambiguity {
  import opened Common
  import opened CanonicalMessage

  // ---------- pieces between dots ----------

  function Pieces(s: string): (p: seq<string>)
    ensures p != []
    ensures forall i :: 0 <= i < |p| ==> DotFree(p[i])
  {
    if s == [] then [""]
    else
      var rest := Pieces(s[1..]);
      if s[0] == '.' then [""] + rest else [[s[0]] + rest[0]] + rest[1..]
  }

  function Join(p: seq<string>): string
    requires p != []
  {
    if |p| == 1 then p[0] else p[0] + "." + Join(p[1..])
  }

  lemma {:induction false} JoinPieces(s: string)
    ensures Join(Pieces(s)) == s
  {
    if s == [] {
    } else {
      var rest := Pieces(s[1..]);
      JoinPieces(s[1..]);
      if s[0] == '.' {
        assert ([""] + rest)[1..] == rest;
      } else {
        var p := [[s[0]] + rest[0]] + rest[1..];
        assert p[1..] == rest[1..];
        assert s == [s[0]] + s[1..];
      }
    }
  }

  lemma {:induction false} PiecesOfDotFree(s: string)
    requires DotFree(s)
    ensures Pieces(s) == [s]
  {
    if s == [] {
    } else {
      assert s[0] in s && s == [s[0]] + s[1..];
      PiecesOfDotFree(s[1..]);
    }
  }

  /** One more character in front: it begins the first piece, or a dot begins a new one. */
  lemma PiecesStep(c: char, s: string)
    ensures Pieces([c] + s) == if c == '.' then [""] + Pieces(s) else [[c] + Pieces(s)[0]] + Pieces(s)[1..]
  {
    assert ([c] + s)[1..] == s;
  }

  lemma NoPieces(s: string)
    requires s == []
    ensures Pieces(s) == [""]
  {
  }

  lemma FirstExtended(c: char, p: seq<string>, q: seq<string>)
    requires p != []
    ensures [""] + (p + q) == ([""] + p) + q
    ensures [[c] + (p + q)[0]] + (p + q)[1..] == ([[c] + p[0]] + p[1..]) + q
  {
    assert (p + q)[1..] == p[1..] + q;
  }

  lemma {:induction false} PiecesOfDotted(a: string, b: string)
    ensures Pieces(a + "." + b) == Pieces(a) + Pieces(b)
  {
    hide Pieces;
    if a == [] {
      assert a + "." + b == ['.'] + b;
      PiecesStep('.', b);
      NoPieces(a);
    } else {
      var c, tail := a[0], a[1..];
      assert a == [c] + tail;
      assert a + "." + b == [c] + (tail + "." + b);
      PiecesOfDotted(tail, b);
      PiecesStep(c, tail);
      PiecesStep(c, tail + "." + b);
      FirstExtended(c, Pieces(tail), Pieces(b));
    }
  }

  lemma {:induction false} JoinAppend(p: seq<string>, q: seq<string>)
    requires p != [] && q != []
    ensures Join(p + q) == Join(p) + "." + Join(q)
  {
    if |p| == 1 {
      assert (p + q)[1..] == q;
    } else {
      assert (p + q)[1..] == p[1..] + q;
      JoinAppend(p[1..], q);
    }
  }

  lemma {:induction false} PiecesOfJoin(p: seq<string>)
    requires p != [] && forall i :: 0 <= i < |p| ==> DotFree(p[i])
    ensures Pieces(Join(p)) == p
  {
    PiecesOfDotFree(p[0]);
    if |p| == 1 {
    } else {
      PiecesOfJoin(p[1..]);
      PiecesOfDotted(p[0], Join(p[1..]));
    }
  }

  // ---------- the part of a message after the method ----------

  function Rest(r: Request): string {
    r.path + "." + r.bodyHash + "." + r.nonce + "." + SignedAccount(r)
  }

  lemma RestPieces(r: Request)
    requires WellFormed(r)
    ensures Pieces(Rest(r)) == Pieces(r.path) + [r.bodyHash] + [r.nonce] + Pieces(SignedAccount(r))
  {
    UuidTextIsDotFree(r.nonce);
    PiecesOfDotted(r.path + "." + r.bodyHash + "." + r.nonce, SignedAccount(r));
    PiecesOfDotted(r.path + "." + r.bodyHash, r.nonce);
    PiecesOfDotted(r.path, r.bodyHash);
    PiecesOfDotFree(r.nonce);
    PiecesOfDotFree(r.bodyHash);
  }

  /** Timestamp and method can always be read off the front. */
  lemma FrontIsFixed(r: Request, t: Request)
    requires WellFormed(r) && WellFormed(t)
    ensures Message(r) == Message(t) <==> r.timestamp == t.timestamp && r.method_ == t.method_ && Rest(r) == Rest(t)
  {
    SplitFront(r);
    SplitFront(t);
  }

  lemma SplitFront(r: Request)
    requires WellFormed(r)
    ensures Message(r) == r.timestamp + "." + (r.method_ + "." + Rest(r))
    ensures SplitFirst(Message(r)) == Some((r.timestamp, r.method_ + "." + Rest(r)))
    ensures SplitFirst(r.method_ + "." + Rest(r)) == Some((r.method_, Rest(r)))
  {
    IntegerTextIsDotFree(r.timestamp);
    assert Message(r) == r.timestamp + "." + (r.method_ + "." + Rest(r));
    SplitFirstOfJoin(r.timestamp, r.method_ + "." + Rest(r));
    SplitFirstOfJoin(r.method_, Rest(r));
  }

  /** Between its dots a signed text has the timestamp, the method, the pieces of the path, the body
      hash, the nonce and the pieces of the account, in this order. */
  lemma MessagePieces(r: Request)
    requires WellFormed(r)
    ensures var account := if r.accountHint.Some? then r.accountHint.value else "";
            Pieces(Message(r)) == [r.timestamp, r.method_] + Pieces(r.path) + [r.bodyHash, r.nonce] + Pieces(account)
  {
    hide Pieces;
    SplitFront(r);
    RestPieces(r);
    IntegerTextIsDotFree(r.timestamp);
    PiecesOfDotted(r.timestamp, r.method_ + "." + Rest(r));
    PiecesOfDotted(r.method_, Rest(r));
    PiecesOfDotFree(r.timestamp);
    PiecesOfDotFree(r.method_);
  }

  // ---------- the ways to deal the pieces out ----------

  /** The piece at `h` can be the body hash: something is left before it for the path, a UUID
      follows, and then something for the account. */
  predicate Fits(pieces: seq<string>, h: nat) {
    1 <= h && h + 2 < |pieces| && HexText(pieces[h]) && UuidText(pieces[h + 1])
  }

  function Dealt(r: Request, pieces: seq<string>, h: nat): Request
    requires Fits(pieces, h)
  {
    Request(r.timestamp, r.method_, Join(pieces[..h]), pieces[h], pieces[h + 1], Some(Join(pieces[h + 2..])))
  }

  lemma DealtJoins(r: Request, pieces: seq<string>, h: nat)
    requires Fits(pieces, h)
    ensures Rest(Dealt(r, pieces, h)) == Join(pieces)
  {
    var path, account := pieces[..h], pieces[h + 2..];
    var tail := [pieces[h + 1]] + account;
    assert [pieces[h]] + tail == pieces[h..];
    assert path + pieces[h..] == pieces;
    JoinAppend(path, pieces[h..]);
    JoinAppend([pieces[h]], tail);
    JoinAppend([pieces[h + 1]], account);
    Regroup(Join(path), pieces[h], pieces[h + 1], Join(account));
  }

  lemma Regroup(a: string, b: string, c: string, d: string)
    ensures a + "." + (b + "." + (c + "." + d)) == a + "." + b + "." + c + "." + d
  {
  }

  /** The place of a request's own body hash. */
  function OwnPlace(r: Request): nat {
    |Pieces(r.path)|
  }

  lemma OwnPlaceFits(r: Request)
    requires WellFormed(r)
    ensures var pieces := Pieces(Rest(r));
            && Fits(pieces, OwnPlace(r)) && pieces[OwnPlace(r)] == r.bodyHash && pieces[OwnPlace(r) + 1] == r.nonce
            && pieces[..OwnPlace(r)] == Pieces(r.path) && pieces[OwnPlace(r) + 2..] == Pieces(SignedAccount(r))
  {
    RestPieces(r);
  }

  predicate SameFields(r: Request, t: Request) {
    r.(accountHint := None) == t.(accountHint := None) && SignedAccount(r) == SignedAccount(t)
  }

  /** Two requests with one text are the same, or their body hashes stand at different places. */
  lemma PlaceDecides(r: Request, t: Request)
    requires WellFormed(r) && WellFormed(t) && Message(r) == Message(t)
    ensures Fits(Pieces(Rest(r)), OwnPlace(t))
    ensures OwnPlace(r) == OwnPlace(t) <==> SameFields(r, t)
  {
    FrontIsFixed(r, t);
    OwnPlaceFits(r);
    OwnPlaceFits(t);
    JoinPieces(r.path);
    JoinPieces(t.path);
    JoinPieces(SignedAccount(r));
    JoinPieces(SignedAccount(t));
  }

  lemma DealtAgain(r: Request, h: nat)
    requires WellFormed(r) && Fits(Pieces(Rest(r)), h)
    ensures var t := Dealt(r, Pieces(Rest(r)), h);
            WellFormed(t) && Message(t) == Message(r) && OwnPlace(t) == h
  {
    var pieces := Pieces(Rest(r));
    var t := Dealt(r, pieces, h);
    DealtJoins(r, pieces, h);
    JoinPieces(Rest(r));
    PiecesOfJoin(pieces[..h]);
    FrontIsFixed(r, t);
  }

  ghost predicate Ambiguous(r: Request) {
    exists t :: WellFormed(t) && Message(t) == Message(r) && !SameFields(r, t)
  }

  /** A request shares its text with a different one exactly if some piece other than its own body
      hash also fits: 64 hex digits with a piece before them, a UUID and a piece after them. */
  lemma AmbiguousExactlyWhen(r: Request)
    requires WellFormed(r)
    ensures Ambiguous(r) <==> exists h :: h != OwnPlace(r) && Fits(Pieces(Rest(r)), h)
  {
    hide WellFormed, Pieces, Fits, Rest, Message, SameFields, Dealt;
    if Ambiguous(r) {
      var t :| WellFormed(t) && Message(t) == Message(r) && !SameFields(r, t);
      PlaceDecides(r, t);
      assert OwnPlace(t) != OwnPlace(r) && Fits(Pieces(Rest(r)), OwnPlace(t));
    }
    if exists h :: h != OwnPlace(r) && Fits(Pieces(Rest(r)), h) {
      var h :| h != OwnPlace(r) && Fits(Pieces(Rest(r)), h);
      DealtAgain(r, h);
      PlaceDecides(r, Dealt(r, Pieces(Rest(r)), h));
    }
  }

  /** Under a path without dots only the account header decides: it has to hold 64 hex digits, a
      UUID and more, one after the other between its dots. */
  lemma DotFreePathExactlyWhen(r: Request)
    requires WellFormed(r) && DotFree(r.path)
    ensures Ambiguous(r) <==>
              var account := Pieces(SignedAccount(r));
              exists i :: 0 <= i && i + 2 < |account| && HexText(account[i]) && UuidText(account[i + 1])
  {
    AmbiguousExactlyWhen(r);
    RestPieces(r);
    PiecesOfDotFree(r.path);
    hide Ambiguous, Pieces, Rest;
    var pieces, account := Pieces(Rest(r)), Pieces(SignedAccount(r));
    assert forall i :: 0 <= i < |account| ==> pieces[i + 3] == account[i];
    forall h | h != 1 && Fits(pieces, h)
      ensures h >= 3 && HexText(account[h - 3]) && UuidText(account[h - 2])
    {
      assert pieces[2] == r.nonce;
    }
    forall i | 0 <= i && i + 2 < |account| && HexText(account[i]) && UuidText(account[i + 1])
      ensures Fits(pieces, i + 3)
    {
      assert pieces[i + 3] == account[i] && pieces[i + 4] == account[i + 1];
    }
  }

  /** So an account id without dots is safe there. */
  lemma DotFreeAccountIsSafe(r: Request)
    requires WellFormed(r) && DotFree(r.path) && DotFree(SignedAccount(r))
    ensures !Ambiguous(r)
  {
    DotFreePathExactlyWhen(r);
    PiecesOfDotFree(SignedAccount(r));
  }

  /** Such a header makes any request ambiguous. */
  lemma DottedAccountIsAmbiguous(r: Request, hash: string, nonce: string, more: string)
    requires WellFormed(r) && DotFree(r.path) && HexText(hash) && UuidText(nonce)
    requires r.accountHint == Some(hash + "." + nonce + "." + more)
    ensures Ambiguous(r)
  {
    UuidTextIsDotFree(nonce);
    PiecesOfDotted(hash + "." + nonce, more);
    PiecesOfDotted(hash, nonce);
    PiecesOfDotFree(hash);
    PiecesOfDotFree(nonce);
    DotFreePathExactlyWhen(r);
    hide Ambiguous, Pieces, HexText, UuidText;
    var account := Pieces(SignedAccount(r));
    assert account == [hash] + [nonce] + Pieces(more);
    assert account[0] == hash && account[1] == nonce;
  }
}
