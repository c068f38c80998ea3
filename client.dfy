/** The client's polling loop (internal/client/client.go:25-59; the loop of
    runClient in main.go:222-245 is the same).  One cycle reads the local
    clipboard, pushes the trimmed text when it is new, then, if the machine
    has a clipboard write command, pulls the server's entry and writes it
    locally unless it is this client's own echo.  The only state carried
    from cycle to cycle is lastSent.

    Every outside call is an Outcome: what the clipboard read returned (None
    for an error), whether the POST succeeded, what the GET returned (None
    for an error) and whether the clipboard write succeeded.  Outcomes for
    calls the cycle does not make are ignored. */
module Client {
  import opened Wrappers
  import opened GoStrings
  import opened Models

  datatype Outcome = Outcome(read: Option<string>, postOk: bool, fetched: Option<Entry>, writeOk: bool)

  /** What a cycle did: the text it posted, whether it fetched, and the text
      it wrote to the local clipboard (each whether or not the call
      succeeded). */
  datatype Effects = Effects(posted: Option<string>, pulled: bool, written: Option<string>)

  const Idle := Effects(None, false, None)

  /** The state after a cycle and what the cycle did. */
  datatype Transition = Transition(lastSent: string, effects: Effects)

  /** The push condition of line 43. */
  predicate ShouldPush(text: string, lastSent: string) {
    text != "" && text != lastSent
  }

  /** The apply condition of line 51. */
  predicate ShouldApply(remote: Entry, source: string, text: string) {
    remote.text != "" && remote.source != source && remote.text != text
  }

  /** One pass of the for loop, as a function of lastSent and the outcomes. */
  function Step(source: string, canWrite: bool, lastSent: string, o: Outcome): Transition {
    if o.read.None? then Transition(lastSent, Idle)
    else StepWith(source, canWrite, lastSent, TrimSpace(o.read.value), o)
  }

  /** The rest of the pass once the local text has been read and trimmed. */
  function StepWith(source: string, canWrite: bool, lastSent: string, text: string, o: Outcome): Transition {
    var push := ShouldPush(text, lastSent);
    var afterPush := if push && o.postOk then text else lastSent;
    var posted := if push then Some(text) else None;
    if !canWrite then Transition(afterPush, Effects(posted, false, None))
    else if o.fetched.Some? && ShouldApply(o.fetched.value, source, text) then
      Transition(if o.writeOk then o.fetched.value.text else afterPush, Effects(posted, true, Some(o.fetched.value.text)))
    else Transition(afterPush, Effects(posted, true, None))
  }

  /** A run of cycles, one per outcome, from a given lastSent: the final
      lastSent and what each cycle did. */
  function Run(source: string, canWrite: bool, lastSent: string, os: seq<Outcome>): (r: Transitions)
    ensures |r.effects| == |os|
  {
    if os == [] then Transitions(lastSent, [])
    else
      var before := Run(source, canWrite, lastSent, os[..|os| - 1]);
      var t := Step(source, canWrite, before.lastSent, os[|os| - 1]);
      Transitions(t.lastSent, before.effects + [t.effects])
  }

  datatype Transitions = Transitions(lastSent: string, effects: seq<Effects>)

  /** The running client.  canWrite says whether Detect found a write
      command (line 30). */
  class Client {
    const source: string
    const canWrite: bool
    var lastSent: string

    constructor (source: string, canWrite: bool)
      ensures this.source == source && this.canWrite == canWrite && lastSent == ""
    {
      this.source := source;
      this.canWrite := canWrite;
      lastSent := "";
    }

    /** The body of the for loop (lines 37-57). */
    method Cycle(o: Outcome) returns (eff: Effects)
      modifies this
      ensures Transition(lastSent, eff) == Step(source, canWrite, old(lastSent), o)
    {
      if o.read.None? {
        return Idle;
      }
      var text := TrimSpace(o.read.value);
      var posted: Option<string> := None;
      if text != "" && text != lastSent {
        posted := Some(text);
        if o.postOk {
          lastSent := text;
        }
      }
      var pulled := false;
      var written: Option<string> := None;
      if canWrite {
        pulled := true;
        var remote := o.fetched;
        if remote.Some? && remote.value.text != "" && remote.value.source != source && remote.value.text != text {
          written := Some(remote.value.text);
          if o.writeOk {
            lastSent := remote.value.text;
          }
        }
      }
      eff := Effects(posted, pulled, written);
    }

    /** The loop run over a finite sequence of outcomes. */
    method RunCycles(os: seq<Outcome>) returns (effs: seq<Effects>)
      modifies this
      ensures Transitions(lastSent, effs) == Run(source, canWrite, old(lastSent), os)
    {
      effs := [];
      for i := 0 to |os|
        invariant Transitions(lastSent, effs) == Run(source, canWrite, old(lastSent), os[..i])
      {
        assert os[..i + 1][..i] == os[..i];
        var eff := Cycle(os[i]);
        effs := effs + [eff];
      }
      assert os[..|os|] == os;
    }
  }

  // ---------------------------------------------------------------------
  // One cycle
  // ---------------------------------------------------------------------

  /** A failed local read skips push and pull and keeps lastSent (lines 37-41). */
  lemma ReadFailureSkipsCycle(source: string, canWrite: bool, lastSent: string, o: Outcome)
    requires o.read.None?
    ensures Step(source, canWrite, lastSent, o) == Transition(lastSent, Effects(None, false, None))
  {
  }

  /** A push happens exactly when the trimmed text is non-empty and differs
      from lastSent, and what is posted is the trimmed text (lines 42-44). */
  lemma PushCondition(source: string, canWrite: bool, lastSent: string, o: Outcome)
    ensures var posted := Step(source, canWrite, lastSent, o).effects.posted;
            && (posted.Some? <==> o.read.Some? && TrimSpace(o.read.value) != "" && TrimSpace(o.read.value) != lastSent)
            && (posted.Some? ==> posted.value == TrimSpace(o.read.value))
  {
  }

  /** lastSent moves to the posted text only when the post succeeds; a
      failed post leaves lastSent as it was unless a local write succeeds
      in the same cycle (lines 44-46, 52-54). */
  lemma FailedPostKeepsLastSent(source: string, canWrite: bool, lastSent: string, o: Outcome)
    requires !o.postOk
    requires !(Step(source, canWrite, lastSent, o).effects.written.Some? && o.writeOk)
    ensures Step(source, canWrite, lastSent, o).lastSent == lastSent
  {
  }

  /** A failed post is retried: unless a local write succeeded in the same
      cycle, reading the same text in the next cycle posts it again
      (lines 43-46, 52-54). */
  lemma FailedPostIsRetried(source: string, canWrite: bool, lastSent: string, o1: Outcome, o2: Outcome)
    requires o1.read.Some? && !o1.postOk
    requires Step(source, canWrite, lastSent, o1).effects.posted.Some?
    requires !(Step(source, canWrite, lastSent, o1).effects.written.Some? && o1.writeOk)
    requires o2.read == o1.read
    ensures var t := Step(source, canWrite, lastSent, o1);
            Step(source, canWrite, t.lastSent, o2).effects.posted == t.effects.posted
  {
  }

  /** lastSent after a cycle: the written text when the local write
      succeeds, otherwise the posted text when the post succeeds, otherwise
      the old value; and a fetch happens exactly when a write command exists
      and the local read succeeded (lines 37-56). */
  lemma StepLastSent(source: string, canWrite: bool, lastSent: string, o: Outcome)
    ensures var t := Step(source, canWrite, lastSent, o);
            && t.lastSent == (if t.effects.written.Some? && o.writeOk then t.effects.written.value
                              else if t.effects.posted.Some? && o.postOk then t.effects.posted.value
                              else lastSent)
            && (t.effects.pulled <==> canWrite && o.read.Some?)
  {
  }

  /** Without a write command the client never fetches and never writes;
      it only pushes (lines 30-32, 49). */
  lemma PushOnlyWithoutWriter(source: string, lastSent: string, o: Outcome)
    ensures var e := Step(source, false, lastSent, o).effects;
            !e.pulled && e.written.None?
  {
  }

  /** The remote text is written exactly when a write command exists, the
      fetch succeeded, its text is non-empty, its source is another machine
      and its text differs from this cycle's trimmed local text (line 51). */
  lemma WriteCondition(source: string, canWrite: bool, lastSent: string, o: Outcome)
    ensures var w := Step(source, canWrite, lastSent, o).effects.written;
            && (w.Some? <==>
                  && canWrite && o.read.Some? && o.fetched.Some?
                  && o.fetched.value.text != ""
                  && o.fetched.value.source != source
                  && o.fetched.value.text != TrimSpace(o.read.value))
            && (w.Some? ==> w.value == o.fetched.value.text)
  {
  }

  /** After a successful local write lastSent is the remote text, so a next
      read that trims to that text triggers no push (lines 52-54, 43). */
  lemma WrittenTextIsNotPushedBack(source: string, canWrite: bool, lastSent: string, o1: Outcome, o2: Outcome)
    requires Step(source, canWrite, lastSent, o1).effects.written.Some? && o1.writeOk
    requires o2.read.Some? && TrimSpace(o2.read.value) == Step(source, canWrite, lastSent, o1).effects.written.value
    ensures var t := Step(source, canWrite, lastSent, o1);
            && t.lastSent == t.effects.written.value
            && Step(source, canWrite, t.lastSent, o2).effects.posted.None?
  {
  }

  // ---------------------------------------------------------------------
  // Runs of cycles
  // ---------------------------------------------------------------------

  /** Echo suppression: in any run, every local write copies a fetched
      entry whose source is another machine; the client's own entries are
      never written back (line 51). */
  lemma {:induction false} EchoSuppressed(source: string, canWrite: bool, lastSent: string, os: seq<Outcome>)
    ensures var effs := Run(source, canWrite, lastSent, os).effects;
            forall k :: 0 <= k < |os| && effs[k].written.Some? ==>
              && os[k].fetched.Some?
              && os[k].fetched.value.source != source
              && effs[k].written.value == os[k].fetched.value.text
  {
    if os != [] {
      var init := os[..|os| - 1];
      EchoSuppressed(source, canWrite, lastSent, init);
      var before := Run(source, canWrite, lastSent, init);
      WriteCondition(source, canWrite, before.lastSent, os[|os| - 1]);
      var effs := Run(source, canWrite, lastSent, os).effects;
      assert effs == before.effects + [Step(source, canWrite, before.lastSent, os[|os| - 1]).effects];
      forall k | 0 <= k < |init| ensures effs[k] == before.effects[k] && os[k] == init[k] {
      }
    }
  }

  /** The clipboard read succeeds with text that trims to t, and the
      server's entry, if fetched, is this machine's own or equals t. */
  predicate HoldsText(source: string, t: string, o: Outcome) {
    && o.read.Some? && TrimSpace(o.read.value) == t
    && (o.fetched.None? || o.fetched.value.source == source || o.fetched.value.text == t)
  }

  /** A cycle of that kind writes nothing, and lastSent becomes t exactly
      when it posts t successfully. */
  lemma HoldsTextStep(source: string, canWrite: bool, lastSent: string, t: string, o: Outcome)
    requires HoldsText(source, t, o)
    ensures var r := Step(source, canWrite, lastSent, o);
            && r.effects.written.None?
            && r.effects.posted == (if ShouldPush(t, lastSent) then Some(t) else None)
            && r.lastSent == (if ShouldPush(t, lastSent) && o.postOk then t else lastSent)
  {
    assert Step(source, canWrite, lastSent, o) == StepWith(source, canWrite, lastSent, t, o);
  }

  /** The last cycle of a run starts from the lastSent the earlier cycles
      left. */
  lemma RunLast(source: string, canWrite: bool, lastSent: string, os: seq<Outcome>)
    requires os != []
    ensures var before := Run(source, canWrite, lastSent, os[..|os| - 1]);
            var t := Step(source, canWrite, before.lastSent, os[|os| - 1]);
            && Run(source, canWrite, lastSent, os).lastSent == t.lastSent
            && Run(source, canWrite, lastSent, os).effects == before.effects + [t.effects]
  {
  }

  /** Running a then b is running b from where a left lastSent. */
  lemma {:induction false} RunConcat(source: string, canWrite: bool, lastSent: string, a: seq<Outcome>, b: seq<Outcome>)
    ensures var ra := Run(source, canWrite, lastSent, a);
            var rb := Run(source, canWrite, ra.lastSent, b);
            Run(source, canWrite, lastSent, a + b) == Transitions(rb.lastSent, ra.effects + rb.effects)
    decreases |b|
  {
    var ra := Run(source, canWrite, lastSent, a);
    if b == [] {
      assert a + b == a;
    } else {
      var b' := b[..|b| - 1];
      RunConcat(source, canWrite, lastSent, a, b');
      assert (a + b)[..|a + b| - 1] == a + b';
      assert (a + b)[|a + b| - 1] == b[|b| - 1];
      RunLast(source, canWrite, lastSent, a + b);
      RunLast(source, canWrite, ra.lastSent, b);
    }
  }

  /** Steady state is quiet: while the local text trims to lastSent and
      the server offers nothing new from another machine, no cycle posts or
      writes and lastSent stays put (lines 42-56). */
  lemma {:induction false} SteadyStateIsQuiet(source: string, canWrite: bool, lastSent: string, os: seq<Outcome>)
    requires forall k :: 0 <= k < |os| ==> HoldsText(source, lastSent, os[k])
    ensures var r := Run(source, canWrite, lastSent, os);
            && r.lastSent == lastSent
            && forall k :: 0 <= k < |os| ==> r.effects[k].posted.None? && r.effects[k].written.None?
  {
    if os != [] {
      var init := os[..|os| - 1];
      SteadyStateIsQuiet(source, canWrite, lastSent, init);
      RunLast(source, canWrite, lastSent, os);
      HoldsTextStep(source, canWrite, lastSent, lastSent, os[|os| - 1]);
    }
  }

  /** A run splits at any cycle n into the run of the first n outcomes and
      the run of the rest from where those left lastSent. */
  lemma RunSplit(source: string, canWrite: bool, lastSent: string, os: seq<Outcome>, n: int)
    requires 0 <= n <= |os|
    ensures var ra := Run(source, canWrite, lastSent, os[..n]);
            Run(source, canWrite, lastSent, os).effects
              == ra.effects + Run(source, canWrite, ra.lastSent, os[n..]).effects
  {
    assert os == os[..n] + os[n..];
    RunConcat(source, canWrite, lastSent, os[..n], os[n..]);
  }

  /** A successful post of t in a cycle that holds t leaves lastSent = t. */
  lemma LastSentAfterPost(source: string, canWrite: bool, lastSent: string, os: seq<Outcome>, t: string, i: int)
    requires 0 <= i < |os| && os[i].postOk && HoldsText(source, t, os[i])
    requires Run(source, canWrite, lastSent, os[..i + 1]).effects[i].posted.Some?
    ensures Run(source, canWrite, lastSent, os[..i + 1]).lastSent == t
  {
    var a := os[..i + 1];
    RunLast(source, canWrite, lastSent, a);
    assert a[..|a| - 1] == os[..i] && a[|a| - 1] == os[i];
    var before := Run(source, canWrite, lastSent, os[..i]);
    HoldsTextStep(source, canWrite, before.lastSent, t, os[i]);
  }

  /** While the local text stays the same and the server offers nothing
      new to write, the text is pushed successfully at most once: after its
      first successful post no later cycle posts again (lines 42-46). */
  lemma NoPushAfterSuccess(source: string, canWrite: bool, lastSent: string, os: seq<Outcome>, t: string, i: int, j: int)
    requires forall k :: 0 <= k < |os| ==> HoldsText(source, t, os[k])
    requires 0 <= i < j < |os| && os[i].postOk
    requires Run(source, canWrite, lastSent, os).effects[i].posted.Some?
    ensures Run(source, canWrite, lastSent, os).effects[j].posted.None?
  {
    var b := os[i + 1..];
    var ra := Run(source, canWrite, lastSent, os[..i + 1]);
    var rb := Run(source, canWrite, ra.lastSent, b);
    RunSplit(source, canWrite, lastSent, os, i + 1);
    LastSentAfterPost(source, canWrite, lastSent, os, t, i);
    forall k | 0 <= k < |b| ensures HoldsText(source, t, b[k]) {
      assert b[k] == os[i + 1 + k];
    }
    SteadyStateIsQuiet(source, canWrite, t, b);
    assert rb.effects[j - i - 1].posted.None?;
  }
}
