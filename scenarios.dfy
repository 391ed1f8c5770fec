/** Sequences of store operations: a remote Set, Get and Store of
    controller.mode, and a Refresh that falls inside a change transaction. */
module Scenarios {
  import opened Wire
  import opened Registry
  import opened Protocol
  import opened Store

  /** Set controller.mode to 2, read it back, store the bank: the host gets
      a positive acknowledgement, a Get reply carrying the value 2, a
      positive store acknowledgement, and the EEPROM holds 2 at the field. */
  method SetGetStoreMode(g: Parameters, e: EEPROM)
    requires g.IsGlobal() && g.com != null && g.eeprom == e
    requires g.writeSemaphore.available && g.readSemaphore.available
    modifies g`bank, g`changeCounter, g.com, e, g.readSemaphore, g.writeSemaphore
    ensures g.com.sent == old(g.com.sent) + [
                 Packet(SetParameterAck, [CONTROLLER, CONTROLLER_MODE, 1]),
                 Packet(GetParameter, [CONTROLLER, CONTROLLER_MODE, Code(UInt8), 1, 2]),
                 Packet(StoreParametersAck, [1])]
            && g.IsGlobal() && e.image == g.bank
            && FieldValue(e.image, CONTROLLER, CONTROLLER_MODE) == [2]
  {
    var setRequest := SetRequest(CONTROLLER, CONTROLLER_MODE, Code(UInt8), 1, [2]);
    DecodeEncodeSet(setRequest);
    SetThenGetEchoes(g.bank, setRequest);
    Parameters.SetParameterCallback(g, g, EncodeSet(setRequest));
    assert g.com.sent == old(g.com.sent) + [Packet(SetParameterAck, [CONTROLLER, CONTROLLER_MODE, 1])];

    assert GetReply(g.bank, [CONTROLLER, CONTROLLER_MODE]).value == EncodeSet(setRequest)
           == [CONTROLLER, CONTROLLER_MODE, Code(UInt8), 1, 2];
    Parameters.GetParameterCallback(g, g, [CONTROLLER, CONTROLLER_MODE], true);
    assert g.com.sent == old(g.com.sent) + [Packet(SetParameterAck, [CONTROLLER, CONTROLLER_MODE, 1]),
                                            Packet(GetParameter, [CONTROLLER, CONTROLLER_MODE, Code(UInt8), 1, 2])];
    Parameters.StoreParametersCallback(g, g, [], FlashComplete);
  }

  /** While another object holds the change transaction open, a Refresh
      copies nothing: a cache sees the bank from before the transaction or,
      after it, the bank as committed, never a partly changed one. */
  method RefreshDuringChange(g: Parameters, w: Parameters, c: Parameters, edit: seq<byte>)
    requires g.IsGlobal() && c.Valid() && w != g && c != g && c != w
    requires g.writeSemaphore.available && g.readSemaphore.available
    requires |edit| == PARAMETERS_LENGTH
    modifies w`bank, w`changeCounter, c`bank, c`changeCounter, g`bank, g.readSemaphore, g.writeSemaphore
    ensures c.bank == WithStoredSize(old(c.bank), PARAMETERS_LENGTH) && c.changeCounter == old(c.changeCounter)
    ensures g.bank == edit
  {
    w.LockForChange(g);
    w.bank := edit;
    c.Refresh(g);
    w.UnlockAfterChange(g);
  }
}
