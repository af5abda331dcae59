/** Single-use connection tickets, kept in the cache under a fingerprint of the ticket. */
module Tickets {
  import opened Options
  import opened Cache

  type Ticket = string

  /** A 32-byte digest. */
  type Digest = s: seq<nat> | |s| == 32 && forall i :: 0 <= i < |s| ==> s[i] < 256
    witness seq(32, _ => 0)

  datatype Participant = Participant(userId: nat, admin: bool)

  // ---- The key a ticket is stored under ----

  const PREFIX: string := "realtime:ticket:"

  function HexDigit(n: nat): char
    requires n < 16
  {
    "0123456789abcdef"[n]
  }

  function HexByte(byte: nat): string
    requires byte < 256
  {
    [HexDigit(byte / 16), HexDigit(byte % 16)]
  }

  function Hex(bytes: seq<nat>): string
    requires forall i :: 0 <= i < |bytes| ==> bytes[i] < 256
  {
    if bytes == [] then "" else Hex(bytes[..|bytes| - 1]) + HexByte(bytes[|bytes| - 1])
  }

  function TicketKey(sha: Ticket -> Digest, ticket: Ticket): Key {
    PREFIX + Hex(sha(ticket))
  }

  lemma {:induction false} HexLength(bytes: seq<nat>)
    requires forall i :: 0 <= i < |bytes| ==> bytes[i] < 256
    ensures |Hex(bytes)| == 2 * |bytes|
  {
    if bytes != [] {
      HexLength(bytes[..|bytes| - 1]);
    }
  }

  lemma {:induction false} HexCharacters(bytes: seq<nat>)
    requires forall i :: 0 <= i < |bytes| ==> bytes[i] < 256
    ensures forall i :: 0 <= i < |Hex(bytes)| ==> KeyCharacter(Hex(bytes)[i])
  {
    if bytes != [] {
      var last := bytes[|bytes| - 1];
      HexCharacters(bytes[..|bytes| - 1]);
      assert forall i :: 0 <= i < 2 ==> KeyCharacter(HexByte(last)[i]);
    }
  }

  function DigitValue(c: char): nat {
    if '0' <= c <= '9' then (c - '0') as nat else if 'a' <= c <= 'f' then (c - 'a') as nat + 10 else 0
  }

  /** Two digits a byte, the high one first. */
  function Unhex(s: string): seq<nat> {
    if |s| < 2 then []
    else Unhex(s[..|s| - 2]) + [16 * DigitValue(s[|s| - 2]) + DigitValue(s[|s| - 1])]
  }

  lemma HexByteReads(byte: nat)
    requires byte < 256
    ensures 16 * DigitValue(HexByte(byte)[0]) + DigitValue(HexByte(byte)[1]) == byte
  {
    var digits := "0123456789abcdef";
    assert forall i :: 0 <= i < 16 ==> DigitValue(digits[i]) == i;
    assert HexByte(byte)[0] == digits[byte / 16] && HexByte(byte)[1] == digits[byte % 16];
  }

  lemma UnhexNext(s: string, pair: string)
    requires |pair| == 2
    ensures Unhex(s + pair) == Unhex(s) + [16 * DigitValue(pair[0]) + DigitValue(pair[1])]
  {
    hide DigitValue;
    var all := s + pair;
    assert all[..|all| - 2] == s && all[|all| - 2] == pair[0] && all[|all| - 1] == pair[1];
  }

  /** Reading the fingerprint gives the digest back. */
  lemma {:induction false} UnhexHex(bytes: seq<nat>)
    requires forall i :: 0 <= i < |bytes| ==> bytes[i] < 256
    ensures Unhex(Hex(bytes)) == bytes
  {
    hide HexByte, Unhex, DigitValue;
    if bytes == [] {
      NothingReads();
    } else {
      var n := |bytes| - 1;
      UnhexHex(bytes[..n]);
      HexByteLength(bytes[n]);
      HexByteReads(bytes[n]);
      UnhexNext(Hex(bytes[..n]), HexByte(bytes[n]));
      assert bytes == bytes[..n] + [bytes[n]];
    }
  }

  lemma NothingReads()
    ensures Unhex("") == []
  {
  }

  lemma HexByteLength(byte: nat)
    requires byte < 256
    ensures |HexByte(byte)| == 2
  {
  }

  /** Every ticket's key is one the cache accepts. */
  lemma TicketKeyIsValid(sha: Ticket -> Digest, ticket: Ticket)
    ensures ValidKey(TicketKey(sha, ticket))
  {
    HexLength(sha(ticket));
    HexCharacters(sha(ticket));
    assert forall i :: 0 <= i < |PREFIX| ==> KeyCharacter(PREFIX[i]);
  }

  /** The key is the prefix and the digest in lower-case hexadecimal. */
  lemma TicketKeyReads(sha: Ticket -> Digest, ticket: Ticket)
    ensures |PREFIX| <= |TicketKey(sha, ticket)| && TicketKey(sha, ticket)[..|PREFIX|] == "realtime:ticket:"
    ensures Unhex(TicketKey(sha, ticket)[|PREFIX|..]) == sha(ticket)
    ensures |TicketKey(sha, ticket)| == 80
  {
    HexLength(sha(ticket));
    UnhexHex(sha(ticket));
    assert TicketKey(sha, ticket)[|PREFIX|..] == Hex(sha(ticket));
  }

  /** Two tickets share a key exactly when they share a digest. */
  lemma TicketKeysDiffer(sha: Ticket -> Digest, a: Ticket, b: Ticket)
    ensures TicketKey(sha, a) == TicketKey(sha, b) <==> sha(a) == sha(b)
  {
    if TicketKey(sha, a) == TicketKey(sha, b) {
      assert TicketKey(sha, a)[|PREFIX|..] == Hex(sha(a)) && TicketKey(sha, b)[|PREFIX|..] == Hex(sha(b));
      UnhexHex(sha(a));
      UnhexHex(sha(b));
    }
  }

  // ---- Issue and redeem ----

  datatype Redemption = Redeemed(participant: Participant) | Unauthorized

  /** The lengths for which the store is asked at all. */
  predicate WellFormed(ticket: Ticket) {
    0 < |ticket| <= 128
  }

  method IssueTicket(cache: MemoryCache<Participant>, sha: Ticket -> Digest, ticket: Ticket,
                     participant: Participant, ttl: nat, now: nat) returns (issued: bool)
    modifies cache
    ensures issued == ValidTtl(ttl)
    ensures cache.values == CacheStep(old(cache.values), PutJson(TicketKey(sha, ticket), participant, ttl, now)).0
  {
    TicketKeyIsValid(sha, ticket);
    var reply := cache.Put(TicketKey(sha, ticket), participant, ttl, now);
    issued := reply.Stored?;
  }

  function Outcome(reply: Reply<Participant>): Redemption {
    if reply.Read? && reply.found.Some? then Redeemed(reply.found.value) else Unauthorized
  }

  method ConsumeTicket(cache: MemoryCache<Participant>, sha: Ticket -> Digest, ticket: Ticket, now: nat)
    returns (redemption: Redemption)
    modifies cache
    ensures !WellFormed(ticket) ==> redemption == Unauthorized && cache.values == old(cache.values)
    ensures WellFormed(ticket) ==>
      var (values, reply) := CacheStep(old(cache.values), TakeJson(TicketKey(sha, ticket), now));
      cache.values == values && redemption == Outcome(reply)
  {
    if ticket == "" || |ticket| > 128 {
      return Unauthorized;
    }
    var reply := cache.Take(TicketKey(sha, ticket), now);
    redemption := Outcome(reply);
  }

  // ---- Runs ----

  datatype TicketCall =
    | Issue(ticket: Ticket, participant: Participant, ttl: nat, now: nat)
    | Redeem(ticket: Ticket, now: nat)

  type TicketCalls = seq<TicketCall>

  predicate TimedTickets(calls: TicketCalls) {
    forall i, k :: 0 <= i < k < |calls| ==> calls[i].now <= calls[k].now
  }

  /** The random source never repeats a ticket. */
  predicate FreshTickets(calls: TicketCalls) {
    forall i, k :: 0 <= i < k < |calls| && calls[i].Issue? && calls[k].Issue? ==> calls[i].ticket != calls[k].ticket
  }

  /** No other ticket of the run has this ticket's digest. */
  predicate NoCollision(sha: Ticket -> Digest, calls: TicketCalls, ticket: Ticket) {
    forall i :: 0 <= i < |calls| && sha(calls[i].ticket) == sha(ticket) ==> calls[i].ticket == ticket
  }

  /** The cache calls of one ticket call. */
  function CacheCall(sha: Ticket -> Digest, call: TicketCall): Calls<Participant> {
    match call
    case Issue(t, participant, ttl, now) => [PutJson(TicketKey(sha, t), participant, ttl, now)]
    case Redeem(t, now) => if WellFormed(t) then [TakeJson(TicketKey(sha, t), now)] else []
  }

  function CacheCalls(sha: Ticket -> Digest, calls: TicketCalls): Calls<Participant> {
    if calls == [] then []
    else CacheCalls(sha, calls[..|calls| - 1]) + CacheCall(sha, calls[|calls| - 1])
  }

  /** How the last call, a redemption, comes out. */
  function LastRedemption(sha: Ticket -> Digest, calls: TicketCalls): Redemption
    requires calls != [] && calls[|calls| - 1].Redeem?
  {
    if !WellFormed(calls[|calls| - 1].ticket) then Unauthorized
    else Outcome(LastReply(CacheCalls(sha, calls)))
  }

  lemma {:induction false} CacheCallsTimed(sha: Ticket -> Digest, calls: TicketCalls)
    requires TimedTickets(calls)
    ensures Timed(CacheCalls(sha, calls))
    ensures CacheCalls(sha, calls) != [] ==>
      calls != [] && CacheCalls(sha, calls)[|CacheCalls(sha, calls)| - 1].now <= calls[|calls| - 1].now
  {
    hide CacheCall, TicketKey, Timed;
    if calls == [] {
      NothingIsTimed();
    } else {
      var n := |calls| - 1;
      CacheCallsTimed(sha, calls[..n]);
      AtMostOneCall(sha, calls[n]);
      TimedSnoc(CacheCalls(sha, calls[..n]), CacheCall(sha, calls[n]));
    }
  }

  lemma NothingIsTimed()
    ensures Timed<Participant>([])
  {
  }

  lemma TimedSnoc(done: Calls<Participant>, next: Calls<Participant>)
    requires Timed(done) && |next| <= 1
    requires done != [] && next != [] ==> done[|done| - 1].now <= next[0].now
    ensures Timed(done + next)
  {
    var all := done + next;
    forall i, k | 0 <= i < k < |all| ensures all[i].now <= all[k].now {
      if k == |done| && i < |done| - 1 {
        assert done[i].now <= done[|done| - 1].now;
      }
    }
  }

  lemma AtMostOneCall(sha: Ticket -> Digest, call: TicketCall)
    ensures var calls := CacheCall(sha, call); |calls| <= 1 && (calls != [] ==> calls[0].now == call.now)
  {
  }

  /** `calls[i]` issued `ticket` and nobody has tried to redeem it since. */
  predicate StandsFrom(calls: TicketCalls, ticket: Ticket, i: int) {
    && 0 <= i < |calls| && calls[i].Issue? && calls[i].ticket == ticket && ValidTtl(calls[i].ttl)
    && forall k :: i < k < |calls| ==> calls[k].ticket != ticket
  }

  function EntryOf(call: TicketCall): Entry<Participant>
    requires call.Issue?
  {
    Entry(call.participant, call.now + call.ttl)
  }

  ghost predicate Stands(calls: TicketCalls, ticket: Ticket, entry: Entry<Participant>) {
    exists i :: StandsFrom(calls, ticket, i) && EntryOf(calls[i]) == entry
  }

  lemma StandsLonger(calls: TicketCalls, call: TicketCall, ticket: Ticket, entry: Entry<Participant>)
    requires call.ticket != ticket
    ensures Stands(calls + [call], ticket, entry) <==> Stands(calls, ticket, entry)
  {
    var all := calls + [call];
    if Stands(calls, ticket, entry) {
      var i :| StandsFrom(calls, ticket, i) && EntryOf(calls[i]) == entry;
      assert StandsFrom(all, ticket, i) && EntryOf(all[i]) == entry;
    }
    if Stands(all, ticket, entry) {
      var i :| StandsFrom(all, ticket, i) && EntryOf(all[i]) == entry;
      assert i < |calls| && StandsFrom(calls, ticket, i) by {
        assert forall k :: i < k < |calls| ==> calls[k] == all[k];
      }
    }
  }

  predicate IssuedBefore(calls: TicketCalls, ticket: Ticket) {
    exists i :: 0 <= i < |calls| && calls[i].Issue? && calls[i].ticket == ticket
  }

  lemma OtherTicketLeavesEntry(sha: Ticket -> Digest, done: Calls<Participant>, call: TicketCall, ticket: Ticket)
    requires sha(call.ticket) != sha(ticket)
    ensures LastPut(done + CacheCall(sha, call), TicketKey(sha, ticket)) == LastPut(done, TicketKey(sha, ticket))
  {
    TicketKeysDiffer(sha, call.ticket, ticket);
    var all := done + CacheCall(sha, call);
    assert all == done || all[..|done|] == done;
  }

  lemma OwnCallDecidesEntry(sha: Ticket -> Digest, done: Calls<Participant>, call: TicketCall)
    requires WellFormed(call.ticket)
    requires call.Issue? ==> LastPut(done, TicketKey(sha, call.ticket)) == None
    ensures LastPut(done + CacheCall(sha, call), TicketKey(sha, call.ticket))
      == if call.Issue? && ValidTtl(call.ttl) then Some(EntryOf(call)) else None
  {
    TicketKeyIsValid(sha, call.ticket);
    assert (done + CacheCall(sha, call))[..|done|] == done;
  }

  lemma OwnCallDecidesStanding(calls: TicketCalls, call: TicketCall, entry: Entry<Participant>)
    ensures Stands(calls + [call], call.ticket, entry)
       <==> call.Issue? && ValidTtl(call.ttl) && EntryOf(call) == entry
  {
    var all := calls + [call];
    assert all[|calls|] == call;
    forall i | StandsFrom(all, call.ticket, i) ensures i == |calls| {
    }
    if call.Issue? && ValidTtl(call.ttl) {
      assert StandsFrom(all, call.ticket, |calls|);
    }
  }

  /** The cache holds a ticket's entry exactly while the ticket stands. */
  lemma {:induction false} HeldWhileStanding(sha: Ticket -> Digest, calls: TicketCalls, ticket: Ticket,
                                            entry: Entry<Participant>)
    requires NoCollision(sha, calls, ticket) && FreshTickets(calls) && WellFormed(ticket)
    ensures LastPut(CacheCalls(sha, calls), TicketKey(sha, ticket)) == Some(entry) <==> Stands(calls, ticket, entry)
    ensures !IssuedBefore(calls, ticket) ==> LastPut(CacheCalls(sha, calls), TicketKey(sha, ticket)) == None
  {
    if calls != [] {
      hide CacheCall, Stands, LastPut, TicketKey;
      var n := |calls| - 1;
      var before, call := calls[..n], calls[n];
      assert calls == before + [call];
      HeldWhileStanding(sha, before, ticket, entry);
      assert IssuedBefore(before, ticket) ==> IssuedBefore(calls, ticket);
      if call.ticket != ticket {
        StandsLonger(before, call, ticket, entry);
        OtherTicketLeavesEntry(sha, CacheCalls(sha, before), call, ticket);
      } else {
        if call.Issue? {
          assert !IssuedBefore(before, ticket);
          assert IssuedBefore(calls, ticket);
        }
        OwnCallDecidesEntry(sha, CacheCalls(sha, before), call);
        OwnCallDecidesStanding(before, call, entry);
      }
    }
  }

  lemma RedemptionReads(sha: Ticket -> Digest, calls: TicketCalls)
    requires TimedTickets(calls) && calls != []
    requires calls[|calls| - 1].Redeem? && WellFormed(calls[|calls| - 1].ticket)
    ensures var n := |calls| - 1;
      var held := LastPut(CacheCalls(sha, calls[..n]), TicketKey(sha, calls[n].ticket));
      LastRedemption(sha, calls)
        == if held.Some? && held.value.expiresAt > calls[n].now then Redeemed(held.value.value) else Unauthorized
  {
    var n := |calls| - 1;
    var all, done := CacheCalls(sha, calls), CacheCalls(sha, calls[..n]);
    assert all[..|all| - 1] == done;
    CacheCallsTimed(sha, calls);
    CacheRefinesTimedMap(all);
    TicketKeyIsValid(sha, calls[n].ticket);
  }

  /** A redemption succeeds, with this participant, exactly when the ticket was issued to that participant,
      is presented strictly before its issue time plus its lifetime, and was never presented in between. */
  lemma RedeemedExactlyWhen(sha: Ticket -> Digest, calls: TicketCalls, participant: Participant)
    requires TimedTickets(calls) && FreshTickets(calls)
    requires calls != [] && calls[|calls| - 1].Redeem? && NoCollision(sha, calls, calls[|calls| - 1].ticket)
    ensures var n := |calls| - 1;
      LastRedemption(sha, calls) == Redeemed(participant) <==>
        WellFormed(calls[n].ticket)
        && exists i :: StandsFrom(calls[..n], calls[n].ticket, i)
             && calls[i].participant == participant && calls[n].now < calls[i].now + calls[i].ttl
  {
    var n := |calls| - 1;
    var before, ticket, now := calls[..n], calls[n].ticket, calls[n].now;
    if WellFormed(ticket) {
      RedemptionReads(sha, calls);
      var held := LastPut(CacheCalls(sha, before), TicketKey(sha, ticket));
      hide LastPut, LastRedemption;
      if held.Some? {
        HeldWhileStanding(sha, before, ticket, held.value);
      }
      forall i | StandsFrom(before, ticket, i) ensures held == Some(EntryOf(calls[i])) {
        assert Stands(before, ticket, EntryOf(before[i]));
        HeldWhileStanding(sha, before, ticket, EntryOf(before[i]));
      }
    }
  }

  /** In every interleaving of issues, redemptions and clock steps, a ticket is redeemed at most once. */
  lemma RedeemedAtMostOnce(sha: Ticket -> Digest, calls: TicketCalls, i: nat, k: nat)
    requires TimedTickets(calls) && FreshTickets(calls)
    requires i < k < |calls| && calls[i].Redeem? && calls[k].Redeem? && calls[i].ticket == calls[k].ticket
    requires NoCollision(sha, calls, calls[i].ticket)
    requires LastRedemption(sha, calls[..i + 1]).Redeemed?
    ensures LastRedemption(sha, calls[..k + 1]) == Unauthorized
  {
    hide LastRedemption;
    var first, second := calls[..i + 1], calls[..k + 1];
    assert first[..i] == calls[..i] && second[..k] == calls[..k];
    RedeemedExactlyWhen(sha, first, LastRedemption(sha, first).participant);
    var a :| StandsFrom(calls[..i], calls[i].ticket, a);
    assert calls[a] == calls[..i][a];
    assert calls[..k][a] == calls[a] && calls[..k][i] == calls[i];
    assert !StandsFrom(calls[..k], calls[k].ticket, a);
    assert forall b :: StandsFrom(calls[..k], calls[k].ticket, b) ==> b == a;
    if LastRedemption(sha, second).Redeemed? {
      RedeemedExactlyWhen(sha, second, LastRedemption(sha, second).participant);
      assert false;
    }
  }

  lemma FirstRedemption(sha: Ticket -> Digest, calls: TicketCalls, i: nat, k: nat)
    requires TimedTickets(calls) && FreshTickets(calls) && i < k < |calls|
    requires NoCollision(sha, calls, calls[i].ticket)
    requires calls[k].Redeem? && StandsFrom(calls[..k], calls[k].ticket, i)
    requires WellFormed(calls[k].ticket) && calls[k].now < calls[i].now + calls[i].ttl
    ensures LastRedemption(sha, calls[..k + 1]) == Redeemed(calls[i].participant)
  {
    hide LastRedemption;
    var run := calls[..k + 1];
    assert run[..k] == calls[..k];
    RedeemedExactlyWhen(sha, run, calls[i].participant);
    assert StandsFrom(run[..k], run[k].ticket, i);
  }

  /** Those hypotheses are met by ordinary runs: two tickets with different digests, each issued and then
      redeemed once by whom it was issued to, and refused when presented again. */
  lemma TwoTicketsAreRedeemed(alice: Participant, bob: Participant, ttl: nat)
    returns (sha: Ticket -> Digest, calls: TicketCalls)
    requires ValidTtl(ttl)
    ensures |calls| == 5 && calls[0] == Issue("a", alice, ttl, 0) && calls[1] == Issue("b", bob, ttl, 0)
    ensures TimedTickets(calls) && FreshTickets(calls)
    ensures forall i :: 0 <= i < |calls| ==> NoCollision(sha, calls, calls[i].ticket)
    ensures calls[2].Redeem? && LastRedemption(sha, calls[..3]) == Redeemed(bob)
    ensures calls[3].Redeem? && LastRedemption(sha, calls[..4]) == Redeemed(alice)
    ensures calls[4].Redeem? && LastRedemption(sha, calls[..5]) == Unauthorized
  {
    hide LastRedemption;
    var zeros: Digest := seq(32, _ => 0);
    var ones: Digest := seq(32, _ => 1);
    sha := t => if t == "a" then zeros else ones;
    assert zeros[0] != ones[0];
    calls := [Issue("a", alice, ttl, 0), Issue("b", bob, ttl, 0), Redeem("b", 0), Redeem("a", 0), Redeem("b", 0)];
    assert NoCollision(sha, calls, "a") && NoCollision(sha, calls, "b");
    FirstRedemption(sha, calls, 1, 2);
    FirstRedemption(sha, calls, 0, 3);
    assert calls[..2 + 1] == calls[..3] && calls[..4 + 1] == calls[..5];
    RedeemedAtMostOnce(sha, calls, 2, 4);
  }

  predicate UrlSafe(c: char) {
    'a' <= c <= 'z' || 'A' <= c <= 'Z' || '0' <= c <= '9' || c == '-' || c == '_'
  }

  /** Thirty-two random bytes in unpadded URL-safe base 64. */
  predicate IssuedShape(ticket: Ticket) {
    |ticket| == 43 && forall i :: 0 <= i < |ticket| ==> UrlSafe(ticket[i])
  }

  /** A ticket as the service issues it can be redeemed, at any time of its lifetime and whatever happened to
      other tickets before it was issued and since. */
  lemma IssuedTicketIsRedeemable(sha: Ticket -> Digest, before: TicketCalls, issue: TicketCall, since: TicketCalls,
                                 now: nat)
    requires issue.Issue? && IssuedShape(issue.ticket) && ValidTtl(issue.ttl) && now < issue.now + issue.ttl
    requires var calls := before + [issue] + since + [Redeem(issue.ticket, now)];
      TimedTickets(calls) && FreshTickets(calls) && NoCollision(sha, calls, issue.ticket)
    requires forall i :: 0 <= i < |since| ==> since[i].ticket != issue.ticket
    ensures WellFormed(issue.ticket)
    ensures LastRedemption(sha, before + [issue] + since + [Redeem(issue.ticket, now)]) == Redeemed(issue.participant)
  {
    hide LastRedemption;
    var calls, n := before + [issue] + since + [Redeem(issue.ticket, now)], |before| + 1 + |since|;
    assert calls[..n] == before + [issue] + since && calls[n] == Redeem(issue.ticket, now);
    assert calls[..n][|before|] == issue;
    assert StandsFrom(calls[..n], issue.ticket, |before|);
    assert calls[..n + 1] == calls;
    FirstRedemption(sha, calls, |before|, n);
  }
}
