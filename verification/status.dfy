/** The status tests the demo applies to values read from the device's
    wire-out registers, on Python's unbounded non-negative integers. */
module DeviceStatus {

  /** Value the expander-id register reads when an XDAQ expander is fitted. */
  const ExpanderSignature: nat := 0x18180606

  /** Python's `a & b` on non-negative integers, bit by bit from the lowest. */
  function BitAnd(a: nat, b: nat): (r: nat)
    ensures r <= a && r <= b
  {
    if a == 0 || b == 0 then 0
    else 2 * BitAnd(a / 2, b / 2) + (if a % 2 == 1 && b % 2 == 1 then 1 else 0)
  }

  /** Masking with 1 keeps bit 0. */
  lemma BitAndOne(a: nat)
    ensures BitAnd(a, 1) == a % 2
  {
    if a > 0 {
      assert BitAnd(a / 2, 0) == 0;
    }
  }

  /** Masking with 4 keeps bit 2. */
  lemma BitAndFour(a: nat)
    ensures BitAnd(a, 4) == 4 * ((a / 4) % 2)
  {
    if a > 0 {
      assert BitAnd(a, 4) == 2 * BitAnd(a / 2, 2);
      if a / 2 > 0 {
        assert (a / 2) / 2 == a / 4;
        assert BitAnd(a / 2, 2) == 2 * BitAnd(a / 4, 1);
        BitAndOne(a / 4);
      }
    }
  }

  /** `status & 4 == 4`: the board's microcontroller is still busy. */
  function McuBusy(status: nat): (busy: bool)
    ensures busy <==> (status / 4) % 2 == 1
  {
    BitAndFour(status);
    BitAnd(status, 4) == 4
  }

  /** `status & 1 == 1`: an acquisition is still running. */
  function AcquisitionRunning(status: nat): (running: bool)
    ensures running <==> status % 2 == 1
  {
    BitAndOne(status);
    BitAnd(status, 1) == 1
  }

  /** `GetWireOutValue(EP.expander) == 0x18180606`. */
  function ExpanderDetected(expanderId: nat): bool
  {
    expanderId == ExpanderSignature
  }
}
