/** The header in front of every record that the chip sends: a length and a type. */
module RxHeader {
  import opened Words

  const HW_HEADER := 60   // bytes of a data record beside its announced length
  const CFG := 0x10       // set in the type of a configuration record

  function PktLen(d: seq<u8>): nat
    requires |d| >= 2
  {
    d[0] as int + 0x100 * (d[1] as int)
  }

  /** The mask tests one bit of the type. */
  lemma CfgBit(kind: u8)
    ensures And(kind, CFG) == CFG <==> kind / 16 % 2 == 1
  {
    assert And(kind / 16, 1) == kind / 16 % 2 by {
      assert And(kind / 16 / 2, 0) == 0;
    }
    assert And(kind / 8, 2) == 2 * And(kind / 8 / 2, 1);
    assert And(kind / 4, 4) == 2 * And(kind / 4 / 2, 2);
    assert And(kind / 2, 8) == 2 * And(kind / 2 / 2, 4);
    assert And(kind, 16) == 2 * And(kind / 2, 8);
  }
}
