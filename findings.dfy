/** Two places where the store's change counter does not announce a change
    of the global bank, so that an object whose counter matches the global
    counter keeps a bank the global object no longer holds. Each is shown on
    the code as written and on the corrected operation. */
module Findings {
  import opened Wire
  import opened Registry
  import opened Store

  /** As written: a change made through LockForChange / UnlockAfterChange by
      object w is never picked up by an object c whose counter matched the
      global counter, because only w's own counter was raised. */
  method TransactionLeavesCacheStale(g: Parameters, w: Parameters, c: Parameters, edit: seq<byte>)
    requires g.IsGlobal() && c.Valid() && w != g && c != g && c != w
    requires g.writeSemaphore.available && g.readSemaphore.available
    requires c.changeCounter == g.changeCounter
    requires StoredSize(c.bank) == PARAMETERS_LENGTH
    requires |edit| == PARAMETERS_LENGTH && edit != c.bank
    modifies w`bank, w`changeCounter, c`bank, c`changeCounter, g`bank, g.readSemaphore, g.writeSemaphore
    ensures g.bank == edit
    ensures c.bank == old(c.bank) && c.bank != g.bank
  {
    w.LockForChange(g);
    w.bank := edit;
    w.UnlockAfterChange(g);
    c.Refresh(g);
    WithStoredSizeIdempotent(old(c.bank));
  }

  /** Corrected: with the global counter raised by the lock, every object
      whose counter was not already the new value takes the committed bank. */
  method TransactionReachesCache(g: Parameters, w: Parameters, c: Parameters, edit: seq<byte>)
    requires g.IsGlobal() && c.Valid() && w != g && c != g && c != w
    requires g.writeSemaphore.available && g.readSemaphore.available
    requires c.changeCounter != Inc32(g.changeCounter)
    requires |edit| == PARAMETERS_LENGTH
    modifies w`bank, c`bank, c`changeCounter, g`bank, g`changeCounter, g.readSemaphore, g.writeSemaphore
    ensures g.bank == edit && c.bank == g.bank
    ensures c.changeCounter == g.changeCounter == Inc32(old(g.changeCounter))
  {
    w.LockForChangeCommitting(g);
    w.bank := edit;
    w.UnlockAfterChange(g);
    c.Refresh(g);
  }

  /** As written: after the EEPROM image has been loaded into the global
      bank, an object whose counter matches the global counter (every object
      does until the first remote Set, all counters starting at zero) keeps
      its own bank on Refresh. The object that attached the EEPROM keeps the
      image it read; when that image had another ParametersSize, it keeps
      that rejected image, with only ParametersSize patched. */
  method AttachLeavesCachesStale(g: Parameters, a: Parameters, c: Parameters, e: EEPROM, outcome: FlashStatus)
    requires g.IsGlobal() && a.Valid() && c.Valid() && a != g && c != g && c != a
    requires g.writeSemaphore.available && g.readSemaphore.available
    requires |e.image| == PARAMETERS_LENGTH
    requires !ForceDefault(g.bank)
    requires a.changeCounter == g.changeCounter && c.changeCounter == g.changeCounter
    requires StoredSize(c.bank) == PARAMETERS_LENGTH
    modifies a`bank, a`changeCounter, c`bank, c`changeCounter, g`bank, g`eeprom, e, g.readSemaphore, g.writeSemaphore
    ensures c.bank == old(c.bank)
    ensures StoredSize(old(e.image)) == PARAMETERS_LENGTH ==> g.bank == old(e.image)
    ensures StoredSize(old(e.image)) != PARAMETERS_LENGTH ==>
              g.bank == old(g.bank) && a.bank == WithStoredSize(old(e.image), PARAMETERS_LENGTH)
  {
    a.AttachEEPROM(g, e, outcome);
    a.Refresh(g);
    c.Refresh(g);
    WithStoredSizeIdempotent(old(c.bank));
  }

  /** Corrected: after the committing attach, every object that held the
      counter value from before the attach takes the global bank. */
  method AttachReachesCaches(g: Parameters, a: Parameters, c: Parameters, e: EEPROM, outcome: FlashStatus)
    requires g.IsGlobal() && a.Valid() && c.Valid() && a != g && c != g && c != a
    requires g.writeSemaphore.available && g.readSemaphore.available
    requires |e.image| == PARAMETERS_LENGTH
    requires a.changeCounter == g.changeCounter && c.changeCounter == g.changeCounter
    modifies a`bank, a`changeCounter, c`bank, c`changeCounter, g`bank, g`eeprom, g`changeCounter, e, g.readSemaphore, g.writeSemaphore
    ensures a.bank == g.bank && c.bank == g.bank
    ensures !ForceDefault(old(g.bank)) && StoredSize(old(e.image)) == PARAMETERS_LENGTH ==> c.bank == old(e.image)
  {
    a.AttachEEPROMCommitting(g, e, outcome);
    a.Refresh(g);
    c.Refresh(g);
  }
}
