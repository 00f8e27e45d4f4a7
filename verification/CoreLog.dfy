/** What of a log is there for its readers: all its tags but the CRCs and forward CRCs, which
    only serve the log itself. */
module CoreLog {
  import opened Bytes
  import opened MetaLog
  import opened TagWord
  import opened MetaBlock

  predicate Serves(ty: bv11) { ty & TYPE2 == CCRC || ty == FCRC }

  function Core(log: seq<Tag>): seq<Tag> {
    if log == [] then [] else Core(log[..|log| - 1]) + CoreTag(log[|log| - 1])
  }

  function CoreTag(t: Tag): seq<Tag> { if Serves(t.ty) then [] else [t] }

  ghost function CoreOf(block: seq<Byte>): seq<Tag> { Core(LogOf(block)) }

  lemma {:induction false} CoreConcat(a: seq<Tag>, b: seq<Tag>)
    ensures Core(a + b) == Core(a) + Core(b)
  {
    hide CoreTag;
    if b == [] {
      assert a + b == a;
    } else {
      assert (a + b)[..|a + b| - 1] == a + b[..|b| - 1];
      CoreConcat(a, b[..|b| - 1]);
    }
  }

  lemma {:induction false} CoreOfService(log: seq<Tag>)
    requires forall i :: 0 <= i < |log| ==> Serves(log[i].ty)
    ensures Core(log) == []
  {
    hide Serves;
    if log == [] {
    } else {
      CoreOfService(log[..|log| - 1]);
    }
  }

  lemma {:induction false} CoreOfOthers(log: seq<Tag>)
    requires forall i :: 0 <= i < |log| ==> !Serves(log[i].ty)
    ensures Core(log) == log
  {
    hide Serves;
    if log == [] {
    } else {
      CoreOfOthers(log[..|log| - 1]);
    }
  }

  lemma TagReplays(d: Dir, t: Tag)
    ensures Replay(d, CoreTag(t)) == Apply(d, t)
  {
    hide Pad, Apply;
    if Serves(t.ty) { ServiceApplies(d, t); }
  }

  lemma ServiceApplies(d: Dir, t: Tag)
    requires Serves(t.ty)
    ensures Apply(d, t) == d
  {
    hide Pad;
    ServiceType(t.ty);
  }

  lemma ServiceType(ty: bv11)
    requires Serves(ty)
    ensures ty & TYPE1 != SPLICE && ty & TYPE1 != TAIL && ty != CREATE && ty != DELETE && !IsAttr(ty)
  {
  }

  /** The entries are those of the whole log. */
  lemma {:induction false} CoreReplays(d: Dir, log: seq<Tag>)
    ensures Replay(d, Core(log)) == Replay(d, log)
  {
    hide CoreTag;
    if log == [] {
    } else {
      var init, last := log[..|log| - 1], log[|log| - 1];
      CoreReplays(d, init);
      ReplayConcat(d, Core(init), CoreTag(last));
      TagReplays(Replay(d, init), last);
    }
  }
}
