/** The parameter store: the global Parameters object holding the
    authoritative bank, per-task Parameters objects caching a copy of it,
    the two binary semaphores that guard the global bank, the EEPROM that
    persists it and the serial link the remote-command handlers reply on.

    Blocking semaphore takes are preconditions (the semaphore must be
    available), since in a sequential model no other task could give it. */
module Store {
  import opened Wire
  import opened Registry
  import opened Protocol

  /** A FreeRTOS binary semaphore, reduced to whether it can be taken. */
  class BinarySemaphore {
    var available: bool

    /** xSemaphoreTake with portMAX_DELAY. */
    method Take()
      requires available
      modifies this
      ensures !available
    {
      available := false;
    }

    /** xSemaphoreTake with a zero timeout: takes it only if it is available. */
    method TryTake() returns (taken: bool)
      modifies this
      ensures taken == old(available)
      ensures !available
    {
      taken := available;
      available := false;
    }

    /** xSemaphoreGive: giving a semaphore that is already available changes nothing. */
    method Give()
      modifies this
      ensures available
    {
      available := true;
    }
  }

  /** Result of an EEPROM write; only EEPROM_FLASH_COMPLETE counts as success. */
  datatype FlashStatus = FlashComplete | FlashFailed

  /** The EEPROM's state after a write of data that ended with outcome. */
  function Written(previous: seq<byte>, data: seq<byte>, outcome: FlashStatus): seq<byte>
  {
    if outcome == FlashComplete then data else previous
  }

  /** The parameters section of the EEPROM, PARAMETERS_LENGTH bytes long. */
  class EEPROM {
    var image: seq<byte>

    method ReadData() returns (data: seq<byte>)
      requires |image| == PARAMETERS_LENGTH
      ensures data == image
    {
      data := image;
    }

    /** The write's outcome is decided by the flash hardware, so it is an input here. */
    method WriteData(data: seq<byte>, outcome: FlashStatus) returns (status: FlashStatus)
      modifies this
      ensures status == outcome
      ensures image == Written(old(image), data, outcome)
    {
      status := outcome;
      if outcome == FlashComplete {
        image := data;
      }
    }
  }

  /** The serial link: everything sent to the host, in order. */
  class Link {
    var sent: seq<Packet>

    method TransmitAsync(kind: MessageKind, payload: seq<byte>)
      modifies this
      ensures sent == old(sent) + [Packet(kind, payload)]
    {
      sent := sent + [Packet(kind, payload)];
    }
  }

  class Parameters {
    /** The parameter bank, from ForceDefaultParameters to the last field. */
    var bank: seq<byte>
    var changeCounter: uint32
    var eeprom: EEPROM?
    var com: Link?
    var readSemaphore: BinarySemaphore?
    var writeSemaphore: BinarySemaphore?

    ghost predicate Valid()
      reads this
    {
      |bank| == PARAMETERS_LENGTH
    }

    /** The global object is the one that owns the two semaphores. */
    ghost predicate IsGlobal()
      reads this
    {
      Valid() && readSemaphore != null && writeSemaphore != null && readSemaphore != writeSemaphore
    }

    /** Parameters::Refresh: when the global bank is not being changed and
        this copy is out of date, take the whole global bank and its counter.
        ParametersSize is reset first, whatever happens next. */
    method Refresh(g: Parameters)
      requires Valid() && g.IsGlobal()
      modifies this`bank, this`changeCounter, g.readSemaphore
      ensures Valid()
      ensures g.readSemaphore.available == old(g.readSemaphore.available)
      ensures var copied := old(g.readSemaphore.available) && old(changeCounter) != old(g.changeCounter);
              && bank == (if copied then old(g.bank) else WithStoredSize(old(bank), PARAMETERS_LENGTH))
              && changeCounter == (if copied then old(g.changeCounter) else old(changeCounter))
    {
      bank := WithStoredSize(bank, PARAMETERS_LENGTH);
      var taken := g.readSemaphore.TryTake();
      if taken {
        if changeCounter != g.changeCounter {
          changeCounter := g.changeCounter;
          bank := g.bank;
        }
        g.readSemaphore.Give();
      }
    }

    /** Parameters::LockForChange: take both semaphores, write first, and
        load the global bank into this object. The counter raised is this
        object's own, not the global one. */
    method LockForChange(g: Parameters)
      requires g.IsGlobal()
      requires g.writeSemaphore.available && g.readSemaphore.available
      modifies this`bank, this`changeCounter, g.readSemaphore, g.writeSemaphore
      ensures Valid()
      ensures bank == old(g.bank)
      ensures changeCounter == Inc32(old(changeCounter))
      ensures !g.readSemaphore.available && !g.writeSemaphore.available
    {
      g.writeSemaphore.Take();
      g.readSemaphore.Take();
      bank := g.bank;
      changeCounter := Inc32(changeCounter);
    }

    /** Parameters::UnlockAfterChange: publish this object's bank as the
        global bank, then give the read semaphore and the write semaphore. */
    method UnlockAfterChange(g: Parameters)
      requires Valid() && g.IsGlobal()
      modifies g`bank, g.readSemaphore, g.writeSemaphore
      ensures g.IsGlobal()
      ensures g.bank == old(bank)
      ensures g.readSemaphore.available && g.writeSemaphore.available
    {
      g.bank := bank;
      g.readSemaphore.Give();
      g.writeSemaphore.Give();
    }

    /** Parameters::LoadParametersFromEEPROM: read the stored image into this
        object under both semaphores. The write semaphore is given twice;
        the second give finds it available and does nothing. */
    method LoadParametersFromEEPROM(g: Parameters, e: EEPROM?)
      requires g.IsGlobal()
      requires e != null ==> |e.image| == PARAMETERS_LENGTH
      requires e != null ==> g.writeSemaphore.available && g.readSemaphore.available
      modifies this`bank, g.readSemaphore, g.writeSemaphore
      ensures e == null ==> bank == old(bank)
      ensures e != null ==> bank == old(e.image) && Valid()
      ensures g.readSemaphore.available == old(g.readSemaphore.available)
      ensures g.writeSemaphore.available == old(g.writeSemaphore.available)
    {
      if e == null {
        return;
      }
      g.writeSemaphore.Take();
      g.readSemaphore.Take();
      bank := e.ReadData();
      g.writeSemaphore.Give();
      g.readSemaphore.Give();
      g.writeSemaphore.Give();
    }

    /** Parameters::StoreParameters: write this object's bank to its EEPROM,
        holding only the write semaphore. The write's status is ignored. */
    method StoreParameters(g: Parameters, outcome: FlashStatus)
      requires g.IsGlobal()
      requires eeprom != null ==> g.writeSemaphore.available
      modifies eeprom, g.writeSemaphore
      ensures eeprom != null ==> eeprom.image == Written(old(eeprom.image), bank, outcome)
      ensures g.writeSemaphore.available == old(g.writeSemaphore.available)
    {
      if eeprom == null {
        return;
      }
      g.writeSemaphore.Take();
      var _ := eeprom.WriteData(bank, outcome);
      g.writeSemaphore.Give();
    }

    /** Parameters::AttachEEPROM, called on a non-global object: bind the
        EEPROM to the global object, then either write the defaults (forced,
        or the stored image has another ParametersSize) or load the stored
        image into the global bank. This object is left holding the image
        read for the size check. No change counter moves. */
    method AttachEEPROM(g: Parameters, e: EEPROM?, outcome: FlashStatus)
      requires Valid() && g.IsGlobal() && this != g
      requires e != null ==> |e.image| == PARAMETERS_LENGTH
      requires e != null ==> g.writeSemaphore.available && g.readSemaphore.available
      modifies this`bank, g`bank, g`eeprom, e, g.readSemaphore, g.writeSemaphore
      ensures Valid() && g.IsGlobal()
      ensures g.readSemaphore.available == old(g.readSemaphore.available)
      ensures g.writeSemaphore.available == old(g.writeSemaphore.available)
      ensures e == null ==> bank == old(bank) && g.bank == old(g.bank) && g.eeprom == old(g.eeprom)
      ensures e != null ==> g.eeprom == e
      ensures e != null && ForceDefault(old(g.bank)) ==>
                bank == old(bank) && g.bank == old(g.bank)
                && e.image == Written(old(e.image), old(g.bank), outcome)
      ensures e != null && !ForceDefault(old(g.bank)) ==>
                bank == old(e.image)
                && if StoredSize(old(e.image)) == PARAMETERS_LENGTH
                   then g.bank == old(e.image) && e.image == old(e.image)
                   else g.bank == old(g.bank) && e.image == Written(old(e.image), old(g.bank), outcome)
      ensures StoredSize(old(g.bank)) == PARAMETERS_LENGTH ==> StoredSize(g.bank) == PARAMETERS_LENGTH
    {
      if e == null {
        return;
      }
      g.eeprom := e;
      if ForceDefault(g.bank) {
        g.StoreParameters(g, outcome);
      } else {
        LoadParametersFromEEPROM(g, e);
        if StoredSize(bank) == PARAMETERS_LENGTH {
          g.LoadParametersFromEEPROM(g, e);
        } else {
          g.StoreParameters(g, outcome);
        }
      }
    }

    /** LockForChange as evidently intended: the commit that follows is
        announced by raising the global change counter, as the Set handler
        does, instead of this object's own counter. */
    method LockForChangeCommitting(g: Parameters)
      requires g.IsGlobal()
      requires g.writeSemaphore.available && g.readSemaphore.available
      modifies this`bank, g`changeCounter, g.readSemaphore, g.writeSemaphore
      ensures Valid() && g.IsGlobal()
      ensures bank == old(g.bank)
      ensures g.changeCounter == Inc32(old(g.changeCounter))
      ensures !g.readSemaphore.available && !g.writeSemaphore.available
    {
      g.writeSemaphore.Take();
      g.readSemaphore.Take();
      bank := g.bank;
      g.changeCounter := Inc32(g.changeCounter);
    }

    /** AttachEEPROM as evidently intended: once an EEPROM is attached the
        global change counter is raised, so that every object still holding
        the counter value from before the attach takes the global bank on
        its next Refresh. */
    method AttachEEPROMCommitting(g: Parameters, e: EEPROM?, outcome: FlashStatus)
      requires Valid() && g.IsGlobal() && this != g
      requires e != null ==> |e.image| == PARAMETERS_LENGTH
      requires e != null ==> g.writeSemaphore.available && g.readSemaphore.available
      modifies this`bank, g`bank, g`eeprom, g`changeCounter, e, g.readSemaphore, g.writeSemaphore
      ensures Valid() && g.IsGlobal()
      ensures g.readSemaphore.available == old(g.readSemaphore.available)
      ensures g.writeSemaphore.available == old(g.writeSemaphore.available)
      ensures e == null ==>
                bank == old(bank) && g.bank == old(g.bank) && g.eeprom == old(g.eeprom)
                && g.changeCounter == old(g.changeCounter)
      ensures e != null ==> g.eeprom == e && g.changeCounter == Inc32(old(g.changeCounter))
      ensures e != null && ForceDefault(old(g.bank)) ==>
                bank == old(bank) && g.bank == old(g.bank)
                && e.image == Written(old(e.image), old(g.bank), outcome)
      ensures e != null && !ForceDefault(old(g.bank)) ==>
                bank == old(e.image)
                && if StoredSize(old(e.image)) == PARAMETERS_LENGTH
                   then g.bank == old(e.image) && e.image == old(e.image)
                   else g.bank == old(g.bank) && e.image == Written(old(e.image), old(g.bank), outcome)
    {
      AttachEEPROM(g, e, outcome);
      if e != null {
        g.changeCounter := Inc32(g.changeCounter);
      }
    }

    /** Parameters::SetParameter_Callback. A payload without a value byte is
        dropped. Otherwise, under both semaphores, the global change counter
        is raised whether or not the Set is accepted, the field is written
        only when the Set is accepted, and one SetParameterAck echoing the
        group and id is sent. */
    static method SetParameterCallback(param: Parameters?, g: Parameters, payload: seq<byte>)
      requires g.IsGlobal() && g.com != null
      requires param == g && |payload| > SET_HEADER_SIZE ==> g.writeSemaphore.available && g.readSemaphore.available
      modifies g`bank, g`changeCounter, g.com, g.readSemaphore, g.writeSemaphore
      ensures g.IsGlobal()
      ensures g.readSemaphore.available == old(g.readSemaphore.available)
      ensures g.writeSemaphore.available == old(g.writeSemaphore.available)
      ensures param != g || |payload| <= SET_HEADER_SIZE ==>
                g.bank == old(g.bank) && g.changeCounter == old(g.changeCounter) && g.com.sent == old(g.com.sent)
      ensures param == g && |payload| > SET_HEADER_SIZE ==>
                var req := DecodeSet(payload).value;
                && g.bank == ApplySet(old(g.bank), req)
                && g.changeCounter == Inc32(old(g.changeCounter))
                && g.com.sent == old(g.com.sent) + [Packet(SetParameterAck, SetAck(req, Accepts(req)))]
    {
      if param == null || param != g {
        return;
      }
      if |payload| <= SET_HEADER_SIZE {
        return;
      }
      var group, id, valueTypeCode, arraySizeField := payload[0], payload[1], payload[2], payload[3];
      var valueLength: uint16 := (|payload| - SET_HEADER_SIZE) % 0x1_0000;
      var value := payload[SET_HEADER_SIZE..];

      g.writeSemaphore.Take();
      g.readSemaphore.Take();
      g.changeCounter := Inc32(g.changeCounter);

      var acknowledged := false;
      var p := LookupParameter(group, id);
      if p.valueType != Unknown {
        var copyLength := Width(p.valueType);
        if p.arraySize == arraySizeField && Code(p.valueType) == valueTypeCode && p.arraySize * copyLength == valueLength {
          g.bank := WriteBytes(g.bank, p.field.value, value[..p.arraySize * copyLength]);
          acknowledged := true;
        }
      }

      g.com.TransmitAsync(SetParameterAck, [group, id, BoolByte(acknowledged)]);

      g.readSemaphore.Give();
      g.writeSemaphore.Give();
    }

    /** Parameters::GetParameter_Callback. Only a request of exactly the Get
        size naming a registered parameter is answered, with the parameter's
        description and its bytes, read under the read semaphore; allocOk
        says whether the reply buffer could be allocated. */
    static method GetParameterCallback(param: Parameters?, g: Parameters, payload: seq<byte>, allocOk: bool)
      requires g.IsGlobal() && g.com != null
      requires param == g && |payload| == GET_REQUEST_SIZE ==> g.readSemaphore.available
      modifies g.com, g.readSemaphore
      ensures g.readSemaphore.available == old(g.readSemaphore.available)
      ensures g.com.sent == old(g.com.sent) +
                if param == g && allocOk && GetReply(g.bank, payload).Some?
                then [Packet(GetParameter, GetReply(g.bank, payload).value)]
                else []
    {
      if param == null || param != g {
        return;
      }
      if |payload| != GET_REQUEST_SIZE {
        return;
      }
      var group, id := payload[0], payload[1];

      g.readSemaphore.Take();

      var p := LookupParameter(group, id);
      if p.valueType != Unknown {
        var copyLength := Width(p.valueType);
        var response := [group, id, Code(p.valueType), p.arraySize];
        if allocOk {
          var offset := p.field.value;
          var message := response + g.bank[offset..offset + copyLength * p.arraySize];
          g.com.TransmitAsync(GetParameter, message);
        }
      }

      g.readSemaphore.Give();
    }

    /** Parameters::StoreParameters_Callback: write the global bank to the
        EEPROM under both semaphores, give them back, then acknowledge; the
        acknowledgement is true only when an EEPROM is attached and the
        write completed. */
    static method StoreParametersCallback(param: Parameters?, g: Parameters, payload: seq<byte>, outcome: FlashStatus)
      requires g.IsGlobal() && g.com != null
      requires param == g ==> g.writeSemaphore.available && g.readSemaphore.available
      modifies g.eeprom, g.com, g.readSemaphore, g.writeSemaphore
      ensures g.readSemaphore.available == old(g.readSemaphore.available)
      ensures g.writeSemaphore.available == old(g.writeSemaphore.available)
      ensures param != g ==> g.com.sent == old(g.com.sent)
      ensures param == g ==>
                g.com.sent == old(g.com.sent)
                  + [Packet(StoreParametersAck, StoreAck(g.eeprom != null && outcome == FlashComplete))]
      ensures param == g && g.eeprom != null ==> g.eeprom.image == Written(old(g.eeprom.image), g.bank, outcome)
      ensures param != g && g.eeprom != null ==> g.eeprom.image == old(g.eeprom.image)
    {
      if param == null || param != g {
        return;
      }
      var acknowledged: bool;

      g.writeSemaphore.Take();
      g.readSemaphore.Take();

      if g.eeprom != null {
        var status := g.eeprom.WriteData(g.bank, outcome);
        if status == FlashComplete {
          acknowledged := true;
        } else {
          acknowledged := false;
        }
      } else {
        acknowledged := false;
      }

      g.readSemaphore.Give();
      g.writeSemaphore.Give();

      g.com.TransmitAsync(StoreParametersAck, [BoolByte(acknowledged)]);
    }

    /** Parameters::DumpParameters_Callback: under the read semaphore, send
        the bank size and package count, then the bank in packages of at
        most LSPC_MAXIMUM_PACKAGE_LENGTH bytes. */
    static method DumpParametersCallback(param: Parameters?, g: Parameters, payload: seq<byte>)
      requires g.IsGlobal() && g.com != null
      requires param == g ==> g.readSemaphore.available
      modifies g.com, g.readSemaphore
      ensures g.readSemaphore.available == old(g.readSemaphore.available)
      ensures g.com.sent == old(g.com.sent) + if param == g then DumpPackets(g.bank) else []
    {
      if param == null || param != g {
        return;
      }
      g.readSemaphore.Take();

      var sizeBytes := PARAMETERS_LENGTH;
      var packagesToFollow := sizeBytes / LSPC_MAXIMUM_PACKAGE_LENGTH
                              + (if sizeBytes % LSPC_MAXIMUM_PACKAGE_LENGTH > 0 then 1 else 0);
      g.com.TransmitAsync(DumpParameters, EncodeLE16(sizeBytes) + EncodeLE16(packagesToFollow));

      var leftToTransmit: nat := PARAMETERS_LENGTH;
      var position: nat := 0;
      assert g.bank[position..] == g.bank;
      while leftToTransmit > 0
        invariant position + leftToTransmit == PARAMETERS_LENGTH
        invariant g.com.sent + AsDumpPackets(Fragments(g.bank[position..], LSPC_MAXIMUM_PACKAGE_LENGTH))
                  == old(g.com.sent) + DumpPackets(g.bank)
        invariant !g.readSemaphore.available
        decreases leftToTransmit
      {
        var transmitLength := leftToTransmit;
        if transmitLength > LSPC_MAXIMUM_PACKAGE_LENGTH {
          transmitLength := LSPC_MAXIMUM_PACKAGE_LENGTH;
        }
        ghost var rest := g.bank[position..];
        FragmentsPeel(rest, LSPC_MAXIMUM_PACKAGE_LENGTH);
        assert rest[..transmitLength] == g.bank[position..position + transmitLength];
        assert rest[transmitLength..] == g.bank[position + transmitLength..];
        ghost var fs := Fragments(rest[transmitLength..], LSPC_MAXIMUM_PACKAGE_LENGTH);
        assert AsDumpPackets([rest[..transmitLength]] + fs) == [Packet(DumpParameters, rest[..transmitLength])] + AsDumpPackets(fs);

        g.com.TransmitAsync(DumpParameters, g.bank[position..position + transmitLength]);
        leftToTransmit := leftToTransmit - transmitLength;
        position := position + transmitLength;
      }
      assert g.bank[position..] == [];

      g.readSemaphore.Give();
    }
  }
}
