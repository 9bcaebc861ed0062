/** Intrusion-detection counters: 32-bit, wrapping, each with a threshold. */
module Ids {
  const WRAP: nat := 0x1_0000_0000
  const MAC_ERROR_THRESHOLD: nat := 3
  const CRC_ERROR_THRESHOLD: nat := 5
  const UNSECURED_FRAME_THRESHOLD: nat := 1

  type uint32 = x: int | 0 <= x < 0x1_0000_0000

  datatype IdsState = IdsOk | IdsFailSafe

  datatype Counters = Counters(macErrors: uint32, crcErrors: uint32, unsecuredFrames: uint32)

  const ZERO: Counters := Counters(0, 0, 0)

  function Increment(c: uint32): (r: uint32) {
    (c + 1) % WRAP
  }

  function Judge(c: uint32, threshold: nat): (s: IdsState) {
    if c >= threshold then IdsFailSafe else IdsOk
  }

  class IdsCounters {
    var macErrors: uint32
    var crcErrors: uint32
    var unsecuredFrames: uint32

    ghost function Value(): (c: Counters)
      reads this
    {
      Counters(macErrors, crcErrors, unsecuredFrames)
    }

    constructor ()
      ensures Value() == ZERO
    {
      macErrors, crcErrors, unsecuredFrames := 0, 0, 0;
    }

    method UpdateOnMacError() returns (s: IdsState)
      modifies this
      ensures Value() == old(Value()).(macErrors := Increment(old(macErrors)))
      ensures s == Judge(macErrors, MAC_ERROR_THRESHOLD) && (s == IdsFailSafe <==> macErrors >= 3)
    {
      macErrors := (macErrors + 1) % WRAP;
      if macErrors >= MAC_ERROR_THRESHOLD {
        return IdsFailSafe;
      }
      return IdsOk;
    }

    method UpdateOnCrcError() returns (s: IdsState)
      modifies this
      ensures Value() == old(Value()).(crcErrors := Increment(old(crcErrors)))
      ensures s == Judge(crcErrors, CRC_ERROR_THRESHOLD) && (s == IdsFailSafe <==> crcErrors >= 5)
    {
      crcErrors := (crcErrors + 1) % WRAP;
      if crcErrors >= CRC_ERROR_THRESHOLD {
        return IdsFailSafe;
      }
      return IdsOk;
    }

    method UpdateOnUnsecured() returns (s: IdsState)
      modifies this
      ensures Value() == old(Value()).(unsecuredFrames := Increment(old(unsecuredFrames)))
      ensures s == Judge(unsecuredFrames, UNSECURED_FRAME_THRESHOLD) && (s == IdsFailSafe <==> unsecuredFrames >= 1)
    {
      unsecuredFrames := (unsecuredFrames + 1) % WRAP;
      if unsecuredFrames >= UNSECURED_FRAME_THRESHOLD {
        return IdsFailSafe;
      }
      return IdsOk;
    }
  }

  // A counter that has counted n events holds n modulo 2^32.
  lemma IncrementWraps(n: nat)
    ensures Increment(n % WRAP) == (n + 1) % WRAP
  {}
}
