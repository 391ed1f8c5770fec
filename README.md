# Kugle parameter store, modelled in Dafny

The Kugle balancing-robot firmware keeps its tunable configuration in a
`Parameters` object. One global object holds the authoritative parameter
bank. Every task owns its own `Parameters` object with a copy of the bank
and a change counter, and keeps the copy in step with `Refresh`. The bank
is a flat byte image that starts with `ForceDefaultParameters` and
`ParametersSize`. A host on the serial link can get, set, store and dump
parameters. An EEPROM keeps the bank across power cycles.

The model has five modules:

- `Wire`: bytes, 16- and 32-bit unsigned integers and their little-endian
  encodings, and the wrap-around of a `uint32_t` increment.
- `Registry`: the bank layout, `LookupParameter` (the (group, id) switch)
  and the byte width of each value type.
- `Protocol`: what the four remote handlers compute, as pure functions:
  - the Set acceptance rule and the bank after a Set;
  - the Set, Get and Store replies;
  - how a dump cuts the bank into packages.
- `Store`: the imperative part, as classes whose methods change fields:
  - `BinarySemaphore` is a FreeRTOS binary semaphore, reduced to an
    `available` flag;
  - `EEPROM` is the stored image;
  - `Link` is the log of packets sent to the host;
  - `Parameters` holds the bank, the change counter and the references to
    the other objects.
  The four handlers are static methods of `Parameters`. They receive the
  callback argument and the global object, so the null and non-global
  guards are part of the model.
- `Findings` and `Scenarios`: sequences of operations. They show the two
  counter defects listed under Findings, the Set/Get/Store round trip on
  `controller.mode`, and a Refresh that falls inside an open change
  transaction.

The model follows the code where the code does something one might not
expect:
- Only the Set handler raises the global change counter. It raises it even
  when the Set is rejected.
- `LockForChange` raises the calling object's own counter.
- `StoreParameters` takes only the write semaphore. The Store handler takes
  both.
- A short Set payload, a Get of the wrong size and a Get of an unknown
  parameter get no reply.
- The Set value length is kept in a `uint16_t` and so is taken modulo 2^16.
- `Refresh` writes `ParametersSize` into the caller's bank before it tries
  the semaphore.

Constants that live in headers outside this model (`Parameters.h` and the
lspc message-type header) are fixed as follows:
- The bank is packed, 65 bytes long:
  - `ForceDefaultParameters` is byte 0;
  - `ParametersSize` is a little-endian `uint32_t` at bytes 1 to 4;
  - the registered fields follow in declaration order;
  - the controller's four unregistered velocity-controller gains sit
    between the controller and estimator groups.
- Group codes are 0 to 5 and ids count from 0 within each group.
- Value-type codes are bool 0, float 1, uint8 2, uint16 3 and uint32 4.
- `changeCounter_` is a `uint32_t`.
- `changeCounter_` is a member of its own, outside the 65 bytes that the
  bank copies (`memcpy` from `&ForceDefaultParameters`, Parameters.cpp
  lines 126, 137 and 145) move; line 125 copies it separately.
- `LSPC_MAXIMUM_PACKAGE_LENGTH` is 250.

Every property of the registry is proved for all 256 × 256 (group, id)
pairs. The general dump lemmas (`Fragments`, `FragmentsCount`,
`PackagesToFollowIsCeiling`, `PackagesToFollowStep`, `FragmentsPeel`) hold
for any byte sequence and any positive maximum package length;
`DumpComplete` applies them to the 65-byte bank and the 250-byte maximum.

## Model

| member | source | states |
|---|---|---|
| `Wire.Inc32` | KugleFirmware/Libraries/Modules/Parameters/Parameters.cpp:195 | the counter increment adds one and wraps from 0xFFFFFFFF to 0 |
| `Wire.LE16RoundTrip` | KugleFirmware/Libraries/Modules/Parameters/Parameters.cpp:318-321 | the uint16 header fields of a dump decode to the values encoded |
| `Wire.LE32RoundTrip` | KugleFirmware/Libraries/Modules/Parameters/Parameters.cpp:107 | ParametersSize, a uint32 in the bank, decodes to the value encoded |
| `Registry.Width` | KugleFirmware/Libraries/Modules/Parameters/Parameters.cpp:204-209 | the copy length is zero only for the unknown type and never more than 4 bytes |
| `Registry.LookupParameter` | KugleFirmware/Libraries/Modules/Parameters/Parameters.cpp:340-399 | the array size is always 1; a result is unknown exactly when its field pointer is null; an unknown group gives the unknown result; a known field lies inside the bank after ForceDefaultParameters and ParametersSize |
| `Registry.FieldsDisjoint` | KugleFirmware/Libraries/Modules/Parameters/Parameters.cpp:340-399 | two different registered (group, id) pairs never share a byte of the bank |
| `Registry.WithStoredSize` | KugleFirmware/Libraries/Modules/Parameters/Parameters.cpp:121 | assigning ParametersSize makes the bank report that size and changes no other byte |
| `Registry.WithStoredSizeIdempotent` | KugleFirmware/Libraries/Modules/Parameters/Parameters.cpp:121 | assigning ParametersSize to a bank that already records PARAMETERS_LENGTH leaves it unchanged |
| `Protocol.DecodeSet` | KugleFirmware/Libraries/Modules/Parameters/Parameters.cpp:186-190 | a Set payload is decoded exactly when it is longer than its 4-byte header, and the decoded request re-encodes to the payload |
| `Protocol.DecodeEncodeSet` | KugleFirmware/Libraries/Modules/Parameters/Parameters.cpp:186-190 | decoding an encoded Set request with a value gives back the request |
| `Protocol.ValueLength` | KugleFirmware/Libraries/Modules/Parameters/Parameters.cpp:189 | the value length seen by the handler is at most the real length, and equal to it below 2^16 |
| `Protocol.WriteBytes` | KugleFirmware/Libraries/Modules/Parameters/Parameters.cpp:214 | the memcpy puts the data at the offset and leaves every other byte of the bank unchanged |
| `Protocol.ApplySet` | KugleFirmware/Libraries/Modules/Parameters/Parameters.cpp:198-217 | a rejected Set leaves the bank byte-for-byte unchanged; an accepted Set makes the field hold the value bytes; no byte outside the field changes |
| `Protocol.SetPreservesHeader` | KugleFirmware/Libraries/Modules/Parameters/Parameters.cpp:202-215 | no remote Set changes ForceDefaultParameters or ParametersSize |
| `Protocol.SetLeavesOtherFields` | KugleFirmware/Libraries/Modules/Parameters/Parameters.cpp:202-215 | a Set leaves every other registered parameter's bytes unchanged |
| `Protocol.GetReply` | KugleFirmware/Libraries/Modules/Parameters/Parameters.cpp:238-272 | a reply exists exactly when the request is 2 bytes and names a registered parameter; it is 4 header bytes plus the field's bytes |
| `Protocol.SetThenGet` | KugleFirmware/Libraries/Modules/Parameters/Parameters.cpp:198-272 | after an accepted Set, a Get of the same parameter returns the request's header and the value bytes written |
| `Protocol.SetThenGetEchoes` | KugleFirmware/Libraries/Modules/Parameters/Parameters.cpp:198-272 | a Set whose type, array size and value length match the registry is accepted, and a later Get returns the Set payload itself |
| `Protocol.PackagesToFollowIsCeiling` | KugleFirmware/Libraries/Modules/Parameters/Parameters.cpp:320 | packages_to_follow is the ceiling of the bank size over the maximum package length |
| `Protocol.PackagesToFollowStep` | KugleFirmware/Libraries/Modules/Parameters/Parameters.cpp:320 | sending one full package leaves one package fewer to follow |
| `Protocol.Fragments` | KugleFirmware/Libraries/Modules/Parameters/Parameters.cpp:324-334 | the dump packages are non-empty, at most the maximum length each, and concatenate to the whole bank in order |
| `Protocol.FragmentsCount` | KugleFirmware/Libraries/Modules/Parameters/Parameters.cpp:319-334 | the dump loop sends exactly as many packages as the header announces |
| `Protocol.FragmentsPeel` | KugleFirmware/Libraries/Modules/Parameters/Parameters.cpp:327-334 | one loop iteration sends the first min(left, maximum) bytes and leaves the packages of the rest |
| `Protocol.DumpComplete` | KugleFirmware/Libraries/Modules/Parameters/Parameters.cpp:317-334 | a dump's header gives the bank size and a package count equal to the number of packages that follow; each is at most the maximum and together they are the bank |
| `Store.BinarySemaphore.Take` | KugleFirmware/Libraries/Modules/Parameters/Parameters.cpp:135-136 | a blocking take needs an available semaphore and leaves it taken |
| `Store.BinarySemaphore.TryTake` | KugleFirmware/Libraries/Modules/Parameters/Parameters.cpp:123 | a zero-timeout take succeeds exactly when the semaphore was available, and leaves it taken |
| `Store.BinarySemaphore.Give` | KugleFirmware/Libraries/Modules/Parameters/Parameters.cpp:162-165 | a give leaves the semaphore available; giving an available one changes nothing |
| `Store.EEPROM.ReadData` | KugleFirmware/Libraries/Modules/Parameters/Parameters.cpp:160 | reading the parameters section returns the stored image |
| `Store.EEPROM.WriteData` | KugleFirmware/Libraries/Modules/Parameters/Parameters.cpp:292 | a write reports its outcome and replaces the image only when the flash write completes |
| `Store.Link.TransmitAsync` | KugleFirmware/Libraries/Modules/Parameters/Parameters.cpp:224 | a transmission appends exactly one packet to what the host has received |
| `Store.Parameters.Refresh` | KugleFirmware/Libraries/Modules/Parameters/Parameters.cpp:117-130 | with the read semaphore available and the counters different, the caller gets the whole global bank and the global counter; otherwise only ParametersSize is reset; the semaphore ends as it started |
| `Store.Parameters.LockForChange` | KugleFirmware/Libraries/Modules/Parameters/Parameters.cpp:132-139 | takes the write and then the read semaphore, loads the global bank into the caller and raises the caller's own counter by one |
| `Store.Parameters.UnlockAfterChange` | KugleFirmware/Libraries/Modules/Parameters/Parameters.cpp:141-150 | the global bank becomes the caller's bank and both semaphores end available |
| `Store.Parameters.LoadParametersFromEEPROM` | KugleFirmware/Libraries/Modules/Parameters/Parameters.cpp:152-166 | with an EEPROM the caller's bank becomes the stored image; the double give leaves both semaphores as they started |
| `Store.Parameters.StoreParameters` | KugleFirmware/Libraries/Modules/Parameters/Parameters.cpp:168-177 | with an EEPROM attached the image becomes the caller's bank if the write completes; only the write semaphore is taken and given |
| `Store.Parameters.AttachEEPROM` | KugleFirmware/Libraries/Modules/Parameters/Parameters.cpp:96-114 | binds the EEPROM to the global object; with ForceDefaultParameters set it writes the global bank without reading; otherwise it loads the image into the global bank only when its ParametersSize is PARAMETERS_LENGTH, and else writes the defaults back; a global bank recording the right size keeps it |
| `Store.Parameters.SetParameterCallback` | KugleFirmware/Libraries/Modules/Parameters/Parameters.cpp:180-229 | a payload without a value byte changes nothing and gets no reply; otherwise the global counter rises by one, the bank becomes ApplySet of it, and one SetParameterAck echoing group and id carries the acceptance |
| `Store.Parameters.GetParameterCallback` | KugleFirmware/Libraries/Modules/Parameters/Parameters.cpp:231-276 | sends GetReply of the global bank when there is one and the buffer could be allocated, and nothing otherwise; bank and counter are untouched |
| `Store.Parameters.StoreParametersCallback` | KugleFirmware/Libraries/Modules/Parameters/Parameters.cpp:278-306 | writes the global bank under both semaphores and acknowledges true exactly when an EEPROM is attached and the write completed; a call on any object but the global one sends nothing and leaves the EEPROM image as it was |
| `Store.Parameters.DumpParametersCallback` | KugleFirmware/Libraries/Modules/Parameters/Parameters.cpp:308-338 | appends exactly DumpPackets of the global bank to the link: the header and the bank in order, in packages of at most the maximum length |
| `Store.Parameters.LockForChangeCommitting` | KugleFirmware/Libraries/Modules/Parameters/Parameters.cpp:132-139 | the corrected lock: like LockForChange, but it raises the global change counter |
| `Store.Parameters.AttachEEPROMCommitting` | KugleFirmware/Libraries/Modules/Parameters/Parameters.cpp:96-114 | the corrected attach: the same outcome for both banks, the EEPROM image and the semaphores as AttachEEPROM, and the global change counter rises by one exactly when an EEPROM is attached |
| `Findings.TransactionLeavesCacheStale` | KugleFirmware/Libraries/Modules/Parameters/Parameters.cpp:117-150 | as written: after another object's Lock/edit/Unlock, a cache whose counter matched the global one keeps its old bank, which differs from the global bank |
| `Findings.TransactionReachesCache` | KugleFirmware/Libraries/Modules/Parameters/Parameters.cpp:117-150 | corrected: after the transaction, such a cache's Refresh yields the committed global bank |
| `Findings.AttachLeavesCachesStale` | KugleFirmware/Libraries/Modules/Parameters/Parameters.cpp:96-130 | as written: after the image is loaded into the global bank, an object whose counter matched keeps its bank; on a size mismatch the attaching object keeps the rejected image |
| `Findings.AttachReachesCaches` | KugleFirmware/Libraries/Modules/Parameters/Parameters.cpp:96-130 | corrected: after the committing attach, both the attaching object and any other cache hold the global bank |
| `Scenarios.SetGetStoreMode` | KugleFirmware/Libraries/Modules/Parameters/Parameters.cpp:180-306 | Set controller.mode to 2, then Get, then Store: the replies are ack true, the mode reply with value 2, and store ack true; the EEPROM holds 2 at mode's offset |
| `Scenarios.RefreshDuringChange` | KugleFirmware/Libraries/Modules/Parameters/Parameters.cpp:117-150 | a Refresh while a change transaction holds the read semaphore copies nothing, so a cache never sees a half-made change |

## Left out

- Construction and destruction of `Parameters` objects (Parameters.cpp:27-93) are not modelled. This covers the `paramsGlobal` sentinel and the recursive constructor, semaphore creation, registry entries, and callback registration and unregistration. The global object is an explicit argument, and the `if (!paramsGlobal) return;` guards always pass.
- Real blocking, preemption and interleaving of FreeRTOS tasks are not modelled. A blocking take is a precondition that the semaphore is available. Mutual exclusion appears only as the `available` flags that operations require and restore.
- The EEPROM driver is reduced to the image of the parameters section plus a write outcome passed in by the caller. `EnableSection` (Parameters.cpp:100) is not modelled; the section always holds PARAMETERS_LENGTH bytes.
- Store.EEPROM.WriteData: a failed flash write leaves the old image in place. The model does not cover a partly written image.
- The transport (`TransmitAsync`) is an append-only packet log. `pvPortMalloc` failure in the Get handler is the `allocOk` argument, and `vPortFree` is not modelled.
- Store.Parameters.AttachEEPROM requires a non-global object, the only way the constructor calls it. Called on the global object, the code would load the image into the global bank before checking its size.
- Parameter values, including floats, are opaque bytes.
- The bank is a byte sequence that each copy reassigns whole. `memcpy` into an object's own storage cannot alias another object's bank, so nothing about aliasing is lost.
- Parameters.h and the lspc message-type header are not part of this model. The layout, codes, sizes and constants they define are the ones given above.
- The commented-out `StoreThread` and the `#if 0` `Get` (Parameters.cpp:402-441) are dead code.
- The other files are outside the parameter store: the quaternion velocity controller, the generated QEKF estimator declaration, the health monitor and path-following task scaffolding, and the GPIO wrapper.

## Findings

| source | as written | input that shows it | evidently intended | confidence | as-written member | corrected member |
|---|---|---|---|---|---|---|
| KugleFirmware/Libraries/Modules/Parameters/Parameters.cpp:138 | `LockForChange` raises the caller's counter. `UnlockAfterChange` publishes the bank without touching the global counter. | Cache c has the global counter. Object w runs LockForChange, changes a byte, then UnlockAfterChange. c's Refresh then keeps its old bank. | The commit raises the global counter, as the Set handler does at line 195, so every cache reloads. | medium; not executed | `Findings.TransactionLeavesCacheStale` | `Store.Parameters.LockForChangeCommitting` |
| KugleFirmware/Libraries/Modules/Parameters/Parameters.cpp:106-111 | Loading the stored image into the global bank leaves `changeCounter_` unchanged. Every counter starts at 0 (line 27). | Objects are constructed before any remote Set, with an image whose ParametersSize is right. Their Refresh keeps the compiled defaults. If the size is wrong, the attaching object keeps the rejected image. | Attaching the EEPROM raises the global counter, so every existing copy reloads. | medium; not executed | `Findings.AttachLeavesCachesStale` | `Store.Parameters.AttachEEPROMCommitting` |

The store operations themselves are modelled as written. The corrected
operations sit beside them. `Findings.TransactionReachesCache` and
`Findings.AttachReachesCaches` prove the intended property of each
corrected operation.
