/**
 * The firmware command interface as its callers see it: one command, one answer. What firmware
 * answers is an input, a script that fixes the answer to every command after every history; what
 * was sent, and how it ended, is logged. The pages that firmware holds are a function of that log
 * and of firmware's answers alone: nothing the driver does to its own records changes them.
 */
module CommandChannel {
  import opened Status
  import opened PageRequests

  datatype Opcode =
    | QueryPages
    | ManagePages(content: PageCommand)
    | InitHca
    | EnableHca
    | TeardownHca
    | DisableHca
    | AllocUar
    | FreeUar
    | CreateEq
    | DestroyEq
    | Other(code: nat)

  /** The commands that a quarantined interface still carries (Channel.Exec says which). */
  predicate AllowedInQuarantine(op: Opcode) {
    op.TeardownHca? || op.DisableHca?
  }

  /** How a command ends, and the reply fields that its reader may look at. */
  datatype Answer = Answer(kr: Kr, owner: Function, count: uint32, listed: seq<nat>)

  /** What passed the interface: a command and how it ended, or a release-all event, by which
      firmware gives up every page it has for a function. */
  datatype Exchange = Sent(op: Opcode, kr: Kr) | Heard(owner: Function)

  /** Firmware's answer to a command that is sent after the given log. */
  type Script = (seq<Exchange>, Opcode) -> Answer

  predicate Unanswered(e: Exchange) {
    e.Sent? && e.kr.Timeout?
  }

  /** A command in the log never came back: firmware may still access its buffers. */
  ghost predicate TimedOut(log: seq<Exchange>) {
    exists i :: 0 <= i < |log| && Unanswered(log[i])
  }

  ghost predicate AllSucceed(log: seq<Exchange>) {
    forall i :: 0 <= i < |log| ==> log[i].Sent? ==> log[i].kr.Success?
  }

  predicate AllOf(log: seq<Exchange>, op: Opcode) {
    forall i :: 0 <= i < |log| ==> log[i].Sent? && log[i].op == op
  }

  /** How the next command ends: refused by the interface, or as firmware answers. */
  ghost function Ending(script: Script, up: bool, log: seq<Exchange>, op: Opcode): Kr {
    if !up || (TimedOut(log) && !AllowedInQuarantine(op)) then NotReady else script(log, op).kr
  }

  /** Every logged command ended as the script has it. */
  ghost predicate Genuine(script: Script, up: bool, log: seq<Exchange>) {
    forall i :: 0 <= i < |log| ==> log[i].Sent? ==> log[i].kr == Ending(script, up, log[..i], log[i].op)
  }

  // The pages that firmware holds

  /** The addresses of a TAKE reply: it has room for `requested` of them, and a field that firmware
      did not write is zero. */
  function Listed(answer: Answer, requested: nat): (r: seq<nat>)
    ensures |r| == requested
  {
    seq(requested, i requires 0 <= i < requested => if i < |answer.listed| then answer.listed[i] else 0)
  }

  /** A list that gives pages back: it names, once each, pages that are held for f. */
  ghost predicate GivesBack(held: map<nat, Function>, f: Function, given: seq<nat>) {
    && (forall i, j :: 0 <= i < j < |given| ==> given[i] != given[j])
    && (forall i :: 0 <= i < |given| ==> given[i] in held && held[given[i]] == f)
  }

  /** The pages that come back with the reply to a TAKE: those it lists, if the list is sound. */
  ghost function Yielded(held: map<nat, Function>, f: Function, requested: nat, answer: Answer): set<nat> {
    if answer.count <= requested && GivesBack(held, f, Listed(answer, requested)[..answer.count])
    then Named(Listed(answer, requested)[..answer.count]) else {}
  }

  lemma YieldedIsHeld(held: map<nat, Function>, f: Function, requested: nat, answer: Answer)
    ensures Yielded(held, f, requested, answer) <= HeldFor(held, f)
  {
  }

  /**
   * What firmware may access after one more exchange. A GIVE that was not refused hands over its
   * pages, also if no answer came; only the reply to a TAKE, and a release-all, give pages back.
   */
  ghost function After(held: map<nat, Function>, e: Exchange, answer: Answer): map<nat, Function> {
    match e
    case Heard(f) => held - HeldFor(held, f)
    case Sent(ManagePages(Give(f, batch)), kr) => if Refused(kr) then held else Lending(held, Named(batch), f)
    case Sent(ManagePages(Take(f, n)), kr) => if kr.Success? then held - Yielded(held, f, n, answer) else held
    case Sent(_, _) => held
  }

  ghost function Reply(script: Script, log: seq<Exchange>, e: Exchange): Answer {
    script(log, if e.Sent? then e.op else QueryPages)
  }

  /** What firmware may access, and on whose account, after everything in the log. */
  ghost function Held(script: Script, log: seq<Exchange>): map<nat, Function> {
    if log == [] then map[]
    else
      var n := |log| - 1;
      After(Held(script, log[..n]), log[n], Reply(script, log[..n], log[n]))
  }

  lemma HeldNext(script: Script, log: seq<Exchange>, e: Exchange)
    ensures Held(script, log + [e]) == After(Held(script, log), e, Reply(script, log, e))
  {
    assert (log + [e])[..|log|] == log;
  }

  /** The release-alls of a log, in order. */
  ghost function Heards(log: seq<Exchange>): seq<Function> {
    if log == [] then []
    else
      var n := |log| - 1;
      Heards(log[..n]) + if log[n].Heard? then [log[n].owner] else []
  }

  lemma {:induction false} HeardsConcat(a: seq<Exchange>, b: seq<Exchange>)
    ensures Heards(a + b) == Heards(a) + Heards(b)
  {
    if b == [] {
      assert a + b == a;
    } else {
      var n := |b| - 1;
      HeardsConcat(a, b[..n]);
      assert (a + b)[..|a + b| - 1] == a + b[..n];
    }
  }

  lemma {:induction false} OnlyCommands(log: seq<Exchange>)
    requires forall i :: 0 <= i < |log| ==> log[i].Sent?
    ensures Heards(log) == []
  {
    if log != [] {
      OnlyCommands(log[..|log| - 1]);
    }
  }

  lemma GenuineNext(script: Script, up: bool, log: seq<Exchange>, e: Exchange)
    requires Genuine(script, up, log)
    requires e.Sent? ==> e.kr == Ending(script, up, log, e.op)
    ensures Genuine(script, up, log + [e])
  {
    var after := log + [e];
    forall i | 0 <= i < |after| && after[i].Sent?
      ensures after[i].kr == Ending(script, up, after[..i], after[i].op)
    {
      assert after[..i] == log[..i];
      assert i == |log| ==> log[..i] == log;
    }
  }

  lemma TimedOutConcat(a: seq<Exchange>, b: seq<Exchange>)
    ensures TimedOut(a + b) <==> TimedOut(a) || TimedOut(b)
  {
    if i :| 0 <= i < |a| && Unanswered(a[i]) {
      assert Unanswered((a + b)[i]);
    }
    if i :| 0 <= i < |b| && Unanswered(b[i]) {
      assert Unanswered((a + b)[|a| + i]);
    }
  }

  lemma TimedOutNext(log: seq<Exchange>, e: Exchange)
    ensures TimedOut(log + [e]) <==> TimedOut(log) || Unanswered(e)
  {
    TimedOutConcat(log, [e]);
    assert Unanswered(e) ==> Unanswered([e][0]);
  }

  /** Commands that all succeeded left none behind. */
  lemma SuccessIsNoTimeout(log: seq<Exchange>)
    requires AllSucceed(log)
    ensures !TimedOut(log)
  {
  }

  class Channel {
    const script: Script
    const up: bool
    var quarantined: bool
    var log: seq<Exchange>
    /** What firmware may access: a function of the log and the answers. */
    ghost var held: map<nat, Function>

    ghost predicate Valid()
      reads this
    {
      (quarantined <==> TimedOut(log)) && Genuine(script, up, log) && held == Held(script, log)
    }

    constructor (script: Script)
      ensures Valid() && up && log == [] && held == map[] && this.script == script
    {
      this.script, up, quarantined, log, held := script, true, false, [], map[];
    }

    /** Nothing passes a quarantined interface but the two commands that end firmware's use of
        host memory; the first timeout quarantines it for good. */
    method Exec(op: Opcode) returns (kr: Kr, answer: Answer)
      requires Valid()
      modifies this
      ensures Valid()
      ensures kr == Ending(script, up, old(log), op) && answer == script(old(log), op)
      ensures !up ==> kr == NotReady
      ensures up && TimedOut(old(log)) && !op.TeardownHca? && !op.DisableHca? ==> kr == NotReady
      ensures up && (op.TeardownHca? || op.DisableHca? || !TimedOut(old(log))) ==> kr == script(old(log), op).kr
      ensures log == old(log) + [Sent(op, kr)]
      ensures held == After(old(held), Sent(op, kr), answer)
      ensures !op.ManagePages? ==> held == old(held)
    {
      hide After, Held;
      answer := script(log, op);
      kr := if !up || (quarantined && !AllowedInQuarantine(op)) then NotReady else answer.kr;
      ghost var e := Sent(op, kr);
      GenuineNext(script, up, log, e);
      TimedOutNext(log, e);
      HeldNext(script, log, e);
      QuietKeepsHeld(held, op, kr, answer);
      if kr.Timeout? {
        quarantined := true;
      }
      held := After(held, e, answer);
      log := log + [Sent(op, kr)];
    }

    /** A release-all event is served: firmware gave up all it had for f. */
    method Hear(f: Function)
      requires Valid()
      modifies this
      ensures Valid() && log == old(log) + [Heard(f)] && held == old(held) - HeldFor(old(held), f)
    {
      hide Held;
      GenuineNext(script, up, log, Heard(f));
      TimedOutNext(log, Heard(f));
      HeldNext(script, log, Heard(f));
      held := held - HeldFor(held, f);
      log := log + [Heard(f)];
    }
  }

  lemma QuietKeepsHeld(held: map<nat, Function>, op: Opcode, kr: Kr, answer: Answer)
    ensures !op.ManagePages? ==> After(held, Sent(op, kr), answer) == held
  {
  }
}
