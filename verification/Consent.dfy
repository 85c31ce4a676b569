/**
 The single-use consent ticket: minted under a fresh nonce, shown any number of
 times, consumed once. Many actors act on one key-value store whose every
 operation may fail before or after taking effect.
 */
module Consent {
  import opened Wrappers

  /** Ten minutes, in nanoseconds. */
  const TICKET_TTL: int := 10 * 60 * 1_000_000_000

  datatype Ticket = Ticket(accountId: int, clientId: string, scopes: seq<string>, redirectUri: string, state: string)

  /** A stored value: the encoding of a ticket, or text that decodes to none. */
  datatype Payload = Encoded(ticket: Ticket) | Malformed(text: string)

  datatype Entry = Entry(value: Payload, expires: int)

  datatype KvError = KeyNotFound | Backend

  function Lookup(m: map<string, Entry>, nonce: string, now: int): Option<Payload> {
    if nonce in m && now <= m[nonce].expires then Some(m[nonce].value) else None
  }

  /** A malformed value or another account's ticket reads as no ticket. */
  function DecodeConsent(value: Payload, accountId: int): Option<Ticket> {
    if value.Encoded? && value.ticket.accountId == accountId then Some(value.ticket) else None
  }

  // ------------------------------------------------------------ runs

  datatype Event =
    | Mint(nonce: string, ticket: Ticket, fault: Fault)
    | Peek(nonce: string, accountId: int, fault: Fault)
    | Consume(nonce: string, accountId: int, fault: Fault)
    | Evict

  /** What happened to the store so far, the latest step outermost. */
  datatype Log = NoEvents | Then(past: Log, event: Event, now: int)

  function Apply(m: map<string, Entry>, event: Event, now: int): map<string, Entry> {
    match event
    case Mint(nonce, ticket, fault) =>
      if fault.FailBefore? then m else m[nonce := Entry(Encoded(ticket), now + TICKET_TTL)]
    case Consume(nonce, _, fault) =>
      if nonce == "" || fault.FailBefore? || Lookup(m, nonce, now).None? then m else m - {nonce}
    case Peek(_, _, _) => m
    case Evict => map k | k in m && now <= m[k].expires :: m[k]
  }

  function Run(log: Log): map<string, Entry> {
    if log.NoEvents? then map[] else Apply(Run(log.past), log.event, log.now)
  }

  /** What a peek or consume is told. */
  function Reply(m: map<string, Entry>, nonce: string, accountId: int, now: int, fault: Fault): Result<Option<Ticket>, KvError> {
    if nonce == "" then Ok(None)
    else if !fault.NoFault? then Err(Backend)
    else
      match Lookup(m, nonce, now)
      case None => Ok(None)
      case Some(value) => Ok(DecodeConsent(value, accountId))
  }

  ghost predicate ClockReached(log: Log, now: int) {
    log.NoEvents? || log.now <= now
  }

  ghost predicate ClockOrdered(log: Log) {
    log.NoEvents? || (ClockOrdered(log.past) && ClockReached(log.past, log.now))
  }

  /** The effective mint of a nonce, with its instant. */
  function Minted(log: Log, nonce: string): Option<(Ticket, int)> {
    if log.NoEvents? then None
    else if log.event.Mint? && log.event.nonce == nonce && !log.event.fault.FailBefore?
    then Some((log.event.ticket, log.now))
    else Minted(log.past, nonce)
  }

  /** Some consume, by whichever account, took effect after the nonce was minted. */
  predicate Claimed(log: Log, nonce: string) {
    log.Then? &&
    (|| Claimed(log.past, nonce)
     || (log.event.Consume? && log.event.nonce == nonce && !log.event.fault.FailBefore? && Minted(log.past, nonce).Some?))
  }

  /** Nonces are never empty and never minted twice. */
  ghost predicate FreshNonces(log: Log) {
    log.Then? ==>
      && FreshNonces(log.past)
      && (log.event.Mint? ==> log.event.nonce != "" && Minted(log.past, log.event.nonce).None?)
  }

  ghost predicate Legal(log: Log) {
    FreshNonces(log) && ClockOrdered(log)
  }

  /** The ticket a nonce stands for at `now`: minted, within its time, and not claimed. */
  function Available(log: Log, nonce: string, now: int): Option<Ticket> {
    match Minted(log, nonce)
    case None => None
    case Some((ticket, at)) => if Claimed(log, nonce) || now > at + TICKET_TTL then None else Some(ticket)
  }

  // ------------------------------------------------------------ laws

  lemma {:induction false} UnmintedUnclaimed(log: Log, nonce: string)
    ensures Minted(log, nonce).None? ==> !Claimed(log, nonce)
    ensures FreshNonces(log) && Minted(log, nonce).Some? ==> nonce != ""
  {
    if log.Then? {
      UnmintedUnclaimed(log.past, nonce);
    }
  }

  /** The store holds exactly the available tickets, whatever was peeked, evicted or half failed. */
  lemma {:induction false} StoreHoldsAvailable(log: Log, nonce: string, now: int)
    requires Legal(log) && ClockReached(log, now)
    ensures Lookup(Run(log), nonce, now) ==
            match Available(log, nonce, now)
            case None => None
            case Some(ticket) => Some(Encoded(ticket))
  {
    if log.Then? {
      StoreHoldsAvailable(log.past, nonce, log.now);
      StoreHoldsAvailable(log.past, nonce, now);
      UnmintedUnclaimed(log.past, nonce);
    }
  }

  /** A peek or consume returns a ticket exactly when it is available and the caller's own. */
  lemma TicketReturnedIff(log: Log, nonce: string, accountId: int, now: int, ticket: Ticket)
    requires Legal(log) && ClockReached(log, now)
    ensures Reply(Run(log), nonce, accountId, now, NoFault) == Ok(Some(ticket)) <==>
            Available(log, nonce, now) == Some(ticket) && ticket.accountId == accountId
    ensures Available(log, nonce, now) == Some(ticket) <==>
            && !Claimed(log, nonce) && Minted(log, nonce).Some? && Minted(log, nonce).value.0 == ticket
            && now - Minted(log, nonce).value.1 <= 600 * 1_000_000_000
  {
    StoreHoldsAvailable(log, nonce, now);
    UnmintedUnclaimed(log, nonce);
  }

  ghost predicate Extends(longer: Log, shorter: Log) {
    longer == shorter || (longer.Then? && Extends(longer.past, shorter))
  }

  lemma {:induction false} ClaimIsFinal(shorter: Log, longer: Log, nonce: string)
    requires Extends(longer, shorter) && Claimed(shorter, nonce)
    ensures Claimed(longer, nonce)
  {
    if longer != shorter {
      ClaimIsFinal(shorter, longer.past, nonce);
    }
  }

  /**
   Single use: once any consume of a minted nonce has reached the store, by the right account or
   the wrong one and even if it then reported an error, nobody is ever given that ticket again.
   */
  lemma ConsumedOnce(log: Log, longer: Log, accountId: int, now: int, fault: Fault, ticket: Ticket)
    requires Legal(longer) && Extends(longer, log) && ClockReached(longer, now)
    requires log.Then? && log.event.Consume? && !log.event.fault.FailBefore? && Minted(log.past, log.event.nonce).Some?
    ensures Reply(Run(longer), log.event.nonce, accountId, now, fault) != Ok(Some(ticket))
  {
    ClaimIsFinal(log, longer, log.event.nonce);
    TicketReturnedIff(longer, log.event.nonce, accountId, now, ticket);
  }

  lemma {:induction false} ExtendedLegal(log: Log, longer: Log)
    requires Legal(longer) && Extends(longer, log)
    ensures Legal(log)
  {
    if longer != log {
      ExtendedLegal(log, longer.past);
    }
  }

  /** At most one consume of a nonce ever succeeds. */
  lemma AtMostOneSuccess(log: Log, longer: Log, first: Ticket, second: Ticket)
    requires Legal(longer) && log.Then? && longer.Then? && Extends(longer.past, log)
    requires log.event.Consume? && longer.event.Consume? && log.event.nonce == longer.event.nonce
    requires Reply(Run(log.past), log.event.nonce, log.event.accountId, log.now, log.event.fault) == Ok(Some(first))
    ensures Reply(Run(longer.past), longer.event.nonce, longer.event.accountId, longer.now, longer.event.fault) != Ok(Some(second))
  {
    ExtendedLegal(log, longer.past);
    TicketReturnedIff(log.past, log.event.nonce, log.event.accountId, log.now, first);
    ConsumedOnce(log, longer.past, longer.event.accountId, longer.now, longer.event.fault, second);
  }

  function WithoutPeeks(log: Log): Log {
    if log.NoEvents? then log
    else if log.event.Peek? then WithoutPeeks(log.past)
    else Then(WithoutPeeks(log.past), log.event, log.now)
  }

  /** Peeks leave no trace: the store is what it would be had none been made. */
  lemma {:induction false} PeeksAreInvisible(log: Log)
    ensures Run(WithoutPeeks(log)) == Run(log)
  {
    if log.Then? {
      PeeksAreInvisible(log.past);
    }
  }

  // ------------------------------------------------------------ the store and its clients

  class Store {
    var entries: map<string, Entry>
    ghost var log: Log

    ghost predicate Valid()
      reads this
    {
      Legal(log) && entries == Run(log)
    }

    constructor ()
      ensures Valid() && log == NoEvents
    {
      entries := map[];
      log := NoEvents;
    }

    method SetEx(key: string, value: Payload, ttl: int, now: int, fault: Fault) returns (ok: bool)
      modifies this`entries
      ensures ok == fault.NoFault?
      ensures entries == if fault.FailBefore? then old(entries) else old(entries)[key := Entry(value, now + ttl)]
    {
      if !fault.FailBefore? {
        entries := entries[key := Entry(value, now + ttl)];
      }
      ok := fault.NoFault?;
    }

    method Get(key: string, now: int, fault: Fault) returns (r: Result<Payload, KvError>)
      ensures r == if !fault.NoFault? then Err(Backend)
                   else if Lookup(entries, key, now).None? then Err(KeyNotFound)
                   else Ok(Lookup(entries, key, now).value)
    {
      if !fault.NoFault? {
        return Err(Backend);
      }
      if key !in entries || now > entries[key].expires {
        return Err(KeyNotFound);
      }
      return Ok(entries[key].value);
    }

    /** Retrieves and removes in one step, so no two callers get the same value. */
    method Pop(key: string, now: int, fault: Fault) returns (r: Result<Payload, KvError>)
      modifies this`entries
      ensures r == if !fault.NoFault? then Err(Backend)
                   else if Lookup(old(entries), key, now).None? then Err(KeyNotFound)
                   else Ok(Lookup(old(entries), key, now).value)
      ensures entries == if fault.FailBefore? || Lookup(old(entries), key, now).None? then old(entries)
                         else old(entries) - {key}
    {
      r := Get(key, now, fault);
      if !fault.FailBefore? && key in entries && now <= entries[key].expires {
        entries := entries - {key};
      }
    }

    /** Background expiry. */
    method DeleteExpired(now: int)
      requires Valid() && ClockReached(log, now)
      modifies this
      ensures Valid() && log == Then(old(log), Evict, now)
    {
      entries := map k | k in entries && now <= entries[k].expires :: entries[k];
      log := Then(log, Evict, now);
    }

    /** `nonce` stands for the fresh random nonce. */
    method DemandConsent(nonce: string, ticket: Ticket, now: int, fault: Fault) returns (r: Result<string, KvError>)
      requires Valid() && ClockReached(log, now) && nonce != "" && Minted(log, nonce).None?
      modifies this
      ensures Valid() && log == Then(old(log), Mint(nonce, ticket, fault), now)
      ensures r == if fault.NoFault? then Ok(nonce) else Err(Backend)
      ensures r.Ok? ==> Available(log, nonce, now) == Some(ticket)
    {
      UnmintedUnclaimed(log, nonce);
      log := Then(log, Mint(nonce, ticket, fault), now);
      var ok := SetEx(nonce, Encoded(ticket), TICKET_TTL, now, fault);
      if !ok {
        return Err(Backend);
      }
      return Ok(nonce);
    }

    method PeekConsent(nonce: string, accountId: int, now: int, fault: Fault) returns (r: Result<Option<Ticket>, KvError>)
      requires Valid() && ClockReached(log, now)
      modifies this`log
      ensures Valid() && log == Then(old(log), Peek(nonce, accountId, fault), now)
      ensures r.Err? <==> nonce != "" && !fault.NoFault?
      ensures r.Ok? ==> forall t :: r.value == Some(t) <==>
                nonce != "" && Available(old(log), nonce, now) == Some(t) && t.accountId == accountId
    {
      StoreHoldsAvailable(log, nonce, now);
      log := Then(log, Peek(nonce, accountId, fault), now);
      if nonce == "" {
        return Ok(None);
      }
      var val := Get(nonce, now, fault);
      if val == Err(KeyNotFound) {
        return Ok(None);
      }
      if val.Err? {
        return Err(val.error);
      }
      return Ok(DecodeConsent(val.value, accountId));
    }

    method ConsumeConsent(nonce: string, accountId: int, now: int, fault: Fault) returns (r: Result<Option<Ticket>, KvError>)
      requires Valid() && ClockReached(log, now)
      modifies this
      ensures Valid() && log == Then(old(log), Consume(nonce, accountId, fault), now)
      ensures r.Err? <==> nonce != "" && !fault.NoFault?
      ensures r.Ok? ==> forall t :: r.value == Some(t) <==>
                nonce != "" && Available(old(log), nonce, now) == Some(t) && t.accountId == accountId
      ensures r.Ok? ==> Available(log, nonce, now) == None
    {
      StoreHoldsAvailable(log, nonce, now);
      UnmintedUnclaimed(log, nonce);
      log := Then(log, Consume(nonce, accountId, fault), now);
      if nonce == "" {
        return Ok(None);
      }
      var val := Pop(nonce, now, fault);
      if val == Err(KeyNotFound) {
        return Ok(None);
      }
      if val.Err? {
        return Err(val.error);
      }
      return Ok(DecodeConsent(val.value, accountId));
    }
  }
}
