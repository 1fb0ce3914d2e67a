/**
 * Firmware that plays along exists: it grants every command, keeps account of the pages it holds,
 * and returns one of them whenever it is asked for some. So what is proved of generous firmware is
 * proved of something.
 */
module HonestFirmware {
  import opened Status
  import opened PageRequests
  import opened CommandChannel
  import opened FwPages
  import opened PciDriver

  /** What it holds after a log that it took part in. */
  ghost function Account(log: seq<Exchange>): map<nat, Function>
    decreases |log|, 0
  {
    if log == [] then map[]
    else
      var n := |log| - 1;
      After(Account(log[..n]), log[n], Honest(log[..n], if log[n].Sent? then log[n].op else QueryPages))
  }

  /** What it answers: to a TAKE, one page of its account. */
  ghost function Honest(log: seq<Exchange>, op: Opcode): Answer
    decreases |log|, 1
  {
    if op.ManagePages? && op.content.Take? && HeldFor(Account(log), op.content.owner) != {} then
      var a :| a in HeldFor(Account(log), op.content.owner);
      Answer(Success, op.content.owner, 1, [a])
    else
      Answer(Success, Function(0, false), 0, [])
  }

  /** Its account is what the channel says it holds. */
  lemma {:induction false} AccountIsHeld(script: Script, log: seq<Exchange>)
    requires forall l, op :: script(l, op) == Honest(l, op)
    ensures Held(script, log) == Account(log)
  {
    if log != [] {
      AccountIsHeld(script, log[..|log| - 1]);
    }
  }

  lemma HonestFirmwareIsGenerous(script: Script)
    requires forall l, op :: script(l, op) == Honest(l, op)
    ensures Generous(script) && Grants(script)
  {
    forall log, f, requested: nat | requested > 0 && HeldFor(Held(script, log), f) != {}
      ensures Yields(script, log, f, requested)
    {
      AccountIsHeld(script, log);
      var answer := script(log, ManagePages(Take(f, requested)));
      assert answer == Honest(log, ManagePages(Take(f, requested)));
      assert Listed(answer, requested)[..answer.count] == answer.listed;
    }
  }

  lemma PlayingAlongIsPossible()
    ensures exists script: Script :: Generous(script) && Grants(script)
  {
    var script: Script := (log: seq<Exchange>, op: Opcode) => Honest(log, op);
    HonestFirmwareIsGenerous(script);
  }
}
