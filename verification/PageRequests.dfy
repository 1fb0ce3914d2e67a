/** What firmware and the driver say to each other about pages, and whom pages are accounted to. */
module PageRequests {

  type int32 = x: int | -0x8000_0000 <= x < 0x8000_0000

  type uint32 = x: int | 0 <= x < 0x1_0000_0000

  /** A 32-bit field read as a signed number. */
  function Signed(x: uint32): int32 {
    if x < 0x8000_0000 then x else x - 0x1_0000_0000
  }

  /** The (function id, embedded) pair that firmware accounts pages to. */
  datatype Function = Function(id: nat, embedded: bool)

  /** A page request event: release everything, give numPages > 0, or take -numPages > 0. */
  datatype PageRequest = PageRequest(owner: Function, releaseAll: bool, numPages: int32)

  /** What a MANAGE_PAGES says: these pages are yours, return up to so many, or there are none. */
  datatype PageCommand =
    | Give(owner: Function, batch: seq<nat>)
    | Take(owner: Function, requested: nat)
    | AllocationFailed(owner: Function)

  ghost function Named(given: seq<nat>): set<nat> {
    set a | a in given
  }

  /** The pages held for f. */
  ghost function HeldFor(held: map<nat, Function>, f: Function): set<nat> {
    set a | a in held && held[a] == f
  }

  /** What is held once the pages s have gone to f. */
  ghost function Lending(held: map<nat, Function>, s: set<nat>, f: Function): (r: map<nat, Function>)
    ensures r.Keys == held.Keys + s
  {
    held + map a | a in s :: f
  }
}
