/** Which failures of a wallet job are retried. The sidecar's error text is classified by
    the markers it contains, after the handler has wrapped it in a message of its own. */
module JobErrors {

  datatype WalletJobError = Transient(msg: string) | Permanent(msg: string)

  /** What the queue is told: retry the job, or mark it dead at once. */
  datatype QueueError = Failed | Abort

  const LOCK_MARKERS: seq<string> := ["objectlocked", "object_locked", "object is locked", "locked at version"]
  const ABORT_MARKERS: seq<string> := ["moveabort", "move abort"]

  function LowerChar(c: char): char {
    if 'A' <= c <= 'Z' then (c as int + 32) as char else c
  }

  function Lower(s: string): (l: string)
    ensures |l| == |s|
    ensures forall i :: 0 <= i < |s| ==> l[i] == LowerChar(s[i])
  {
    seq(|s|, i requires 0 <= i < |s| => LowerChar(s[i]))
  }

  predicate OccursAt(s: string, marker: string, i: int) {
    0 <= i <= |s| - |marker| && s[i..i + |marker|] == marker
  }

  ghost predicate Contains(s: string, marker: string) {
    exists i :: OccursAt(s, marker, i)
  }

  ghost predicate ContainsAny(s: string, markers: seq<string>) {
    exists k :: 0 <= k < |markers| && Contains(s, markers[k])
  }

  ghost function Classify(msg: string): WalletJobError {
    if ContainsAny(Lower(msg), LOCK_MARKERS) then Transient(msg)
    else if ContainsAny(Lower(msg), ABORT_MARKERS) then Permanent(msg)
    else Transient(msg)
  }

  function IntoQueueError(e: WalletJobError): QueueError {
    if e.Transient? then Failed else Abort
  }

  /** A wrapper as the handlers write them: free of markers and ending in ": ". */
  ghost predicate Wrapper(prefix: string) {
    && |prefix| >= 2 && prefix[|prefix| - 2] == ':' && prefix[|prefix| - 1] == ' '
    && !ContainsAny(Lower(prefix), LOCK_MARKERS) && !ContainsAny(Lower(prefix), ABORT_MARKERS)
  }

  /** An occurrence that crossed the end of a wrapper would hold its colon or begin with its
      space. */
  lemma NoStraddle(prefix: string, s: string, marker: string, i: int)
    requires |prefix| >= 2 && prefix[|prefix| - 2] == ':' && prefix[|prefix| - 1] == ' '
    requires marker != [] && ':' !in marker && marker[0] != ' '
    requires OccursAt(prefix + s, marker, i)
    ensures i + |marker| <= |prefix| || i >= |prefix|
  {
    var t, n := prefix + s, |prefix|;
    assert forall j {:trigger t[j]} :: i <= j < i + |marker| ==> t[j] == marker[j - i];
    assert t[n - 2] == ':' && t[n - 1] == ' ';
  }

  /** A marker that has no colon and does not begin with a space cannot straddle the end
      of a wrapper: it lies in the wrapper or in what is wrapped. */
  lemma ContainsWrapped(prefix: string, s: string, marker: string)
    requires |prefix| >= 2 && prefix[|prefix| - 2] == ':' && prefix[|prefix| - 1] == ' '
    requires marker != [] && ':' !in marker && marker[0] != ' '
    ensures Contains(prefix + s, marker) <==> Contains(prefix, marker) || Contains(s, marker)
  {
    var t, n, m := prefix + s, |prefix|, |marker|;
    if Contains(t, marker) {
      var i :| OccursAt(t, marker, i);
      NoStraddle(prefix, s, marker, i);
      if i + m <= n {
        assert OccursAt(prefix, marker, i);
      } else if i >= n {
        assert s[i - n..i - n + m] == t[i..i + m];
        assert OccursAt(s, marker, i - n);
      }
    }
    if Contains(prefix, marker) {
      var i :| OccursAt(prefix, marker, i);
      assert t[i..i + m] == prefix[i..i + m];
      assert OccursAt(t, marker, i);
    }
    if Contains(s, marker) {
      var i :| OccursAt(s, marker, i);
      assert t[n + i..n + i + m] == s[i..i + m];
      assert OccursAt(t, marker, n + i);
    }
  }

  lemma ContainsAnyWrapped(prefix: string, s: string, markers: seq<string>)
    requires |prefix| >= 2 && prefix[|prefix| - 2] == ':' && prefix[|prefix| - 1] == ' '
    requires forall k :: 0 <= k < |markers| ==> markers[k] != [] && ':' !in markers[k] && markers[k][0] != ' '
    ensures ContainsAny(prefix + s, markers) <==> ContainsAny(prefix, markers) || ContainsAny(s, markers)
  {
    forall k | 0 <= k < |markers|
      ensures Contains(prefix + s, markers[k]) <==> Contains(prefix, markers[k]) || Contains(s, markers[k])
    {
      ContainsWrapped(prefix, s, markers[k]);
    }
  }

  /** The verdict of the queue depends on the sidecar's text alone: the wrapping a handler
      adds before classifying never turns a retry into an abort or back. */
  lemma WrappingKeepsVerdict(prefix: string, sidecarText: string)
    requires Wrapper(prefix)
    ensures IntoQueueError(Classify(prefix + sidecarText)) == IntoQueueError(Classify(sidecarText))
  {
    assert Lower(prefix + sidecarText) == Lower(prefix) + Lower(sidecarText);
    ContainsAnyWrapped(Lower(prefix), Lower(sidecarText), LOCK_MARKERS);
    ContainsAnyWrapped(Lower(prefix), Lower(sidecarText), ABORT_MARKERS);
  }

  /** A text that lacks a character of a marker does not contain the marker. */
  lemma LacksCharacter(s: string, marker: string, c: char)
    requires c in marker && c !in s
    ensures !Contains(s, marker)
  {
    var j :| 0 <= j < |marker| && marker[j] == c;
  }

  lemma LacksMarkers(prefix: string)
    requires 'j' !in Lower(prefix) && 'k' !in Lower(prefix) && 'm' !in Lower(prefix)
    ensures !ContainsAny(Lower(prefix), LOCK_MARKERS) && !ContainsAny(Lower(prefix), ABORT_MARKERS)
  {
    hide Contains, Lower;
    var l := Lower(prefix);
    assert LOCK_MARKERS[0][2] == 'j' && LOCK_MARKERS[1][2] == 'j' && LOCK_MARKERS[2][2] == 'j';
    assert LOCK_MARKERS[3][3] == 'k' && ABORT_MARKERS[0][0] == 'm' && ABORT_MARKERS[1][0] == 'm';
    LacksCharacter(l, LOCK_MARKERS[0], 'j');
    LacksCharacter(l, LOCK_MARKERS[1], 'j');
    LacksCharacter(l, LOCK_MARKERS[2], 'j');
    LacksCharacter(l, LOCK_MARKERS[3], 'k');
    LacksCharacter(l, ABORT_MARKERS[0], 'm');
    LacksCharacter(l, ABORT_MARKERS[1], 'm');
  }

  /** Lowering adds no character but the small form of a capital. */
  lemma LacksLowered(prefix: string, c: char)
    requires 'a' <= c <= 'z' && c !in prefix && (c as int - 32) as char !in prefix
    ensures c !in Lower(prefix)
  {
  }

  /** Letters without which no marker can be formed. */
  predicate Telling(c: char) {
    c == 'j' || c == 'J' || c == 'k' || c == 'K' || c == 'm' || c == 'M'
  }

  predicate Plain(s: string) {
    forall i :: 0 <= i < |s| ==> !Telling(s[i])
  }

  lemma IsWrapper(prefix: string)
    requires |prefix| >= 2 && prefix[|prefix| - 2] == ':' && prefix[|prefix| - 1] == ' ' && Plain(prefix)
    ensures Wrapper(prefix)
  {
    hide Lower, ContainsAny;
    assert forall c :: c in prefix ==> !Telling(c);
    LacksLowered(prefix, 'j');
    LacksLowered(prefix, 'k');
    LacksLowered(prefix, 'm');
    LacksMarkers(prefix);
  }

  // ---------- the marker in the text itself ----------

  /** The marker stands in the text, in any mix of capitals and small letters. */
  ghost predicate AnyCase(s: string, marker: string) {
    exists i :: 0 <= i <= |s| - |marker| && SpelledAt(s, marker, i)
  }

  predicate SpelledAt(s: string, marker: string, i: nat)
    requires i <= |s| - |marker|
  {
    forall j :: 0 <= j < |marker| ==> LowerChar(s[i + j]) == marker[j]
  }

  lemma AnyCaseIsLowered(s: string, marker: string)
    ensures AnyCase(s, marker) <==> Contains(Lower(s), marker)
  {
    forall i | 0 <= i <= |s| - |marker|
      ensures SpelledAt(s, marker, i) <==> OccursAt(Lower(s), marker, i)
    {
      var slice := Lower(s)[i..i + |marker|];
      assert forall j :: 0 <= j < |marker| ==> slice[j] == LowerChar(s[i + j]);
    }
    if Contains(Lower(s), marker) {
      var i :| OccursAt(Lower(s), marker, i);
      assert SpelledAt(s, marker, i);
    }
    if AnyCase(s, marker) {
      var i :| 0 <= i <= |s| - |marker| && SpelledAt(s, marker, i);
      assert OccursAt(Lower(s), marker, i);
    }
  }

  /** A Move abort is reported and no lock is. */
  ghost predicate MoveAbortOnly(s: string) {
    && (AnyCase(s, "moveabort") || AnyCase(s, "move abort"))
    && !AnyCase(s, "objectlocked") && !AnyCase(s, "object_locked")
    && !AnyCase(s, "object is locked") && !AnyCase(s, "locked at version")
  }

  lemma AbortsOnMoveAbortOnly(s: string)
    ensures IntoQueueError(Classify(s)).Abort? <==> MoveAbortOnly(s)
  {
    hide AnyCase, Contains, Lower;
    var l := Lower(s);
    forall k | 0 <= k < |ABORT_MARKERS|
      ensures AnyCase(s, ABORT_MARKERS[k]) <==> Contains(l, ABORT_MARKERS[k])
    {
      AnyCaseIsLowered(s, ABORT_MARKERS[k]);
    }
    forall k | 0 <= k < |LOCK_MARKERS|
      ensures AnyCase(s, LOCK_MARKERS[k]) <==> Contains(l, LOCK_MARKERS[k])
    {
      AnyCaseIsLowered(s, LOCK_MARKERS[k]);
    }
    assert ContainsAny(l, ABORT_MARKERS) <==> Contains(l, ABORT_MARKERS[0]) || Contains(l, ABORT_MARKERS[1]);
    assert ContainsAny(l, LOCK_MARKERS) <==> Contains(l, LOCK_MARKERS[0]) || Contains(l, LOCK_MARKERS[1])
                                             || Contains(l, LOCK_MARKERS[2]) || Contains(l, LOCK_MARKERS[3]);
  }
}
