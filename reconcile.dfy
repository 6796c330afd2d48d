/**
 * The decisions of one reconciliation pass as pure specifications: which
 * writes an update issues (`update_dns_record`), when a family needs one
 * (the comparisons in `run`), how a sequence of requests plays out against
 * the transport, and the whole pass (`run`).
 */
module Reconcile {
  import opened Wrappers
  import opened Text
  import opened Records
  import opened Commands

  /** What the transport hands back for a request: a body, or a connection failure (`URLError`). */
  datatype Reply = Answer(body: string) | Unreachable

  /** Python truthiness of an optional string: present and non-empty. */
  predicate Truthy(v: Option<string>)
  {
    v.Some? && v.value != ""
  }

  /**
   * The writes `update_dns_record` issues: one delete of the truthy current
   * value followed by one add of the new address, or the add alone; both for
   * the configured domain and the protocol's record type.
   */
  function UpdatePlan(domain: string, current: Option<string>, address: string, protocol: string): (plan: seq<Command>)
    ensures WritesFor(plan, domain, RecordType(protocol))
    ensures |plan| == (if Truthy(current) then 2 else 1)
    ensures plan[|plan| - 1] == AddRecord(domain, RecordType(protocol), address)
    ensures Truthy(current) ==> plan[0] == RemoveRecord(domain, RecordType(protocol), current.value)
  {
    var t := RecordType(protocol);
    (if Truthy(current) then [RemoveRecord(domain, t, current.value)] else []) + [AddRecord(domain, t, address)]
  }

  /**
   * The writes one address family needs: none exactly when the published value
   * equals the observed one, and only writes of the family's own record type.
   */
  function ReconcilePlan(domain: string, current: Option<string>, observed: string, protocol: string): (plan: seq<Command>)
    ensures plan == [] <==> current == Some(observed)
    ensures WritesFor(plan, domain, RecordType(protocol))
  {
    if current == Some(observed) then [] else UpdatePlan(domain, current, observed, protocol)
  }

  /** Every write of a plan is for the configured domain and the protocol's record type. */
  ghost predicate WritesFor(plan: seq<Command>, domain: string, rtype: string)
  {
    forall i :: 0 <= i < |plan| ==> plan[i].IsWrite() && plan[i].record == domain && plan[i].rtype == rtype
  }

  /** Every request of a plan gets an answer from the transport. */
  ghost predicate Answered(plan: seq<Command>, respond: Command -> Reply)
  {
    forall i :: 0 <= i < |plan| ==> respond(plan[i]).Answer?
  }

  /** The requests actually made, the write outcomes logged, and whether the sequence ran to its end. */
  datatype Exec = Exec(calls: seq<Command>, log: seq<WriteLog>, completed: bool)

  /** The transport's reply to a command: the reply to the command's text. */
  function Respond(api: string -> Reply): Command -> Reply
  {
    c => api(CommandText(c))
  }

  /**
   * Sending a plan's requests in order. A transport failure stops the sequence
   * right after the request that failed; an in-band error is only logged.
   */
  function Send(plan: seq<Command>, respond: Command -> Reply): (e: Exec)
    ensures |e.calls| <= |plan| && e.calls == plan[..|e.calls|]
    ensures e.completed <==> Answered(plan, respond)
    decreases |plan|
  {
    if plan == [] then Exec([], [], true)
    else
      match respond(plan[0])
      case Unreachable => Exec([plan[0]], [], false)
      case Answer(body) =>
        var rest := Send(plan[1..], respond);
        assert forall i :: 1 <= i < |plan| ==> plan[i] == plan[1..][i - 1];
        Exec([plan[0]] + rest.calls, [Classify(plan[0], body)] + rest.log, rest.completed)
  }

  /**
   * A completed sequence made every request; an interrupted one stops at its
   * first unanswered request, after answers to all before it.
   */
  lemma {:induction false} SendStops(plan: seq<Command>, respond: Command -> Reply)
    ensures var e := Send(plan, respond);
            && (e.completed ==> e.calls == plan)
            && (!e.completed ==> e.calls != [] && respond(e.calls[|e.calls| - 1]).Unreachable?)
            && (!e.completed ==> forall i :: 0 <= i < |e.calls| - 1 ==> respond(e.calls[i]).Answer?)
    decreases |plan|
  {
    if plan != [] && respond(plan[0]).Answer? {
      var e := Send(plan, respond);
      var rest := Send(plan[1..], respond);
      SendStops(plan[1..], respond);
      assert e.calls == [plan[0]] + rest.calls;
      if e.completed {
        assert plan == [plan[0]] + plan[1..];
      } else {
        assert e.calls[|e.calls| - 1] == rest.calls[|rest.calls| - 1];
        assert forall i :: 1 <= i < |e.calls| ==> e.calls[i] == rest.calls[i - 1];
      }
    }
  }

  /** The log holds the classification of each answered request, in plan order, and nothing else. */
  lemma {:induction false} SendLog(plan: seq<Command>, respond: Command -> Reply)
    ensures var e := Send(plan, respond);
            && |e.log| == (if e.completed then |plan| else |e.calls| - 1)
            && forall i :: 0 <= i < |e.log| ==>
                 respond(plan[i]).Answer? && e.log[i] == Classify(plan[i], respond(plan[i]).body)
    decreases |plan|
  {
    if plan != [] && respond(plan[0]).Answer? {
      var e := Send(plan, respond);
      var rest := Send(plan[1..], respond);
      SendLog(plan[1..], respond);
      assert e.log == [Classify(plan[0], respond(plan[0]).body)] + rest.log;
      assert forall i :: 1 <= i < |e.log| ==> e.log[i] == rest.log[i - 1] && plan[i] == plan[1..][i - 1];
    }
  }

  /**
   * A delete that gets any answer, even one reporting an error, is followed by
   * the add; the delete's outcome is logged first.
   */
  lemma DeleteAnsweredThenAdd(domain: string, current: Option<string>, address: string, protocol: string,
                              respond: Command -> Reply)
    requires Truthy(current)
    requires respond(RemoveRecord(domain, RecordType(protocol), current.value)).Answer?
    ensures var del := RemoveRecord(domain, RecordType(protocol), current.value);
            var add := AddRecord(domain, RecordType(protocol), address);
            var e := Send(UpdatePlan(domain, current, address, protocol), respond);
            && e.calls == [del, add]
            && e.log[0] == Classify(del, respond(del).body)
            && (e.completed <==> respond(add).Answer?)
  {
    var plan := UpdatePlan(domain, current, address, protocol);
    assert plan[1..] == [AddRecord(domain, RecordType(protocol), address)];
  }

  /** Where the host learns its own public address, per protocol. */
  function HostUrl(protocol: string): string
  {
    if protocol == IPV6 then "https://api6.ipify.org" else "https://checkip.amazonaws.com"
  }

  /**
   * The host's observed address: None exactly when its address-discovery page
   * is unreachable, else the page body with only outer whitespace removed.
   */
  function HostAddress(lookup: string -> Reply, protocol: string): (r: Option<string>)
    ensures r.None? <==> lookup(HostUrl(protocol)).Unreachable?
    ensures r.Some? ==> exists a :: PaddedAt(lookup(HostUrl(protocol)).body, a, r.value, IsSpace)
    ensures r.Some? && r.value != [] ==> !IsSpace(r.value[0]) && !IsSpace(r.value[|r.value| - 1])
  {
    match lookup(HostUrl(protocol))
    case Unreachable => None
    case Answer(body) => Some(Strip(body))
  }

  /**
   * When one address family runs to its end: the host's address is discovered
   * and every write the comparison calls for is answered.
   */
  ghost predicate FamilyCompletes(domain: string, records: seq<string>, protocol: string,
                                  respond: Command -> Reply, lookup: string -> Reply)
  {
    && HostAddress(lookup, protocol).Some?
    && Answered(ReconcilePlan(domain, Select(records, domain, RecordType(protocol)),
                              HostAddress(lookup, protocol).value, protocol), respond)
  }

  /**
   * One address family: select the published value, discover the host address,
   * send the needed writes. At most a delete and an add, both of the family's
   * record type; every answered write is logged, and a completed family
   * logged all of them. An unreachable discovery page ends the family before
   * any write.
   */
  function FamilyPass(domain: string, records: seq<string>, protocol: string,
                      respond: Command -> Reply, lookup: string -> Reply): (e: Exec)
    ensures WritesFor(e.calls, domain, RecordType(protocol))
    ensures |e.calls| <= 2
    ensures |e.log| <= |e.calls| && (e.completed ==> |e.log| == |e.calls|)
    ensures HostAddress(lookup, protocol).None? ==> e == Exec([], [], false)
    ensures e.completed <==> FamilyCompletes(domain, records, protocol, respond, lookup)
  {
    var current := Select(records, domain, RecordType(protocol));
    match HostAddress(lookup, protocol)
    case None => Exec([], [], false)
    case Some(host) =>
      var plan := ReconcilePlan(domain, current, host, protocol);
      var e := Send(plan, respond);
      SendStops(plan, respond);
      SendLog(plan, respond);
      assert forall i :: 0 <= i < |e.calls| ==> e.calls[i] == plan[i];
      e
  }

  /** A family with a discovered host address: nothing to send when the values agree, else the update. */
  lemma FamilyPassFound(domain: string, records: seq<string>, protocol: string,
                        respond: Command -> Reply, lookup: string -> Reply, current: Option<string>, host: string)
    requires current == Select(records, domain, RecordType(protocol))
    requires HostAddress(lookup, protocol) == Some(host)
    ensures FamilyPass(domain, records, protocol, respond, lookup)
            == if current == Some(host) then Exec([], [], true) else Send(UpdatePlan(domain, current, host, protocol), respond)
  {
  }

  /**
   * One run: fetch the listing once, reconcile IPv4, then IPv6 when enabled;
   * stop at the first transport failure. The listing comes first, at most four
   * writes follow, and a completed run logged the outcome of every write.
   * An unanswered listing request aborts the run at once.
   */
  function RunPass(domain: string, checkIpv6: bool, respond: Command -> Reply, lookup: string -> Reply): (e: Exec)
    ensures e.calls != [] && e.calls[0] == ListRecords && |e.calls| <= 5
    ensures |e.log| < |e.calls| && (e.completed ==> |e.log| == |e.calls| - 1)
    ensures respond(ListRecords).Unreachable? ==> e == Exec([ListRecords], [], false)
  {
    match respond(ListRecords)
    case Unreachable => Exec([ListRecords], [], false)
    case Answer(listing) =>
      var records := Relevant(Lines(listing), domain);
      var v4 := FamilyPass(domain, records, IP, respond, lookup);
      var v6 := if v4.completed && checkIpv6 then FamilyPass(domain, records, IPV6, respond, lookup)
                else Exec([], [], v4.completed);
      Exec([ListRecords] + v4.calls + v6.calls, v4.log + v6.log, v6.completed)
  }

  /** A run whose listing was answered: the IPv4 family, then the IPv6 family if IPv4 completed and it is enabled. */
  lemma RunPassListed(domain: string, checkIpv6: bool, respond: Command -> Reply, lookup: string -> Reply,
                      listing: string, records: seq<string>)
    requires respond(ListRecords) == Answer(listing)
    requires records == Relevant(Lines(listing), domain)
    ensures var e := RunPass(domain, checkIpv6, respond, lookup);
            var v4 := FamilyPass(domain, records, IP, respond, lookup);
            var v6 := FamilyPass(domain, records, IPV6, respond, lookup);
            && (!v4.completed ==> e == Exec([ListRecords] + v4.calls, v4.log, false))
            && (v4.completed && !checkIpv6 ==> e == Exec([ListRecords] + v4.calls, v4.log, true))
            && (v4.completed && checkIpv6 ==> e == Exec([ListRecords] + v4.calls + v6.calls, v4.log + v6.log, v6.completed))
  {
    var v4 := FamilyPass(domain, records, IP, respond, lookup);
    assert v4.calls + [] == v4.calls && v4.log + [] == v4.log;
  }

  /**
   * A run completes, and so exits with status 0, exactly when the listing is
   * answered, the IPv4 family completes and, with IPv6 checking on, so does
   * the IPv6 family; any transport failure on the way gives status 1.
   */
  lemma RunCompletion(domain: string, checkIpv6: bool, respond: Command -> Reply, lookup: string -> Reply)
    ensures RunPass(domain, checkIpv6, respond, lookup).completed
            <==> && respond(ListRecords).Answer?
                 && var records := Relevant(Lines(respond(ListRecords).body), domain);
                    && FamilyCompletes(domain, records, IP, respond, lookup)
                    && (checkIpv6 ==> FamilyCompletes(domain, records, IPV6, respond, lookup))
  {
    match respond(ListRecords)
    case Unreachable =>
    case Answer(listing) =>
      RunPassListed(domain, checkIpv6, respond, lookup, listing, Relevant(Lines(listing), domain));
  }

  /**
   * A failed address lookup aborts the run: after an answered listing, an
   * unreachable IPv4 discovery page means no write at all and status 1.
   */
  lemma RunStopsWithoutHostAddress(domain: string, checkIpv6: bool, respond: Command -> Reply,
                                   lookup: string -> Reply)
    requires respond(ListRecords).Answer?
    requires lookup(HostUrl(IP)).Unreachable?
    ensures RunPass(domain, checkIpv6, respond, lookup) == Exec([ListRecords], [], false)
    ensures ExitStatus(RunPass(domain, checkIpv6, respond, lookup)) == 1
  {
    var records := Relevant(Lines(respond(ListRecords).body), domain);
    RunPassListed(domain, checkIpv6, respond, lookup, respond(ListRecords).body, records);
  }

  /** The process exit status of a run: 0 when it ran to its end, 1 after an unhandled failure. */
  function ExitStatus(e: Exec): (code: int)
    ensures code == 0 || code == 1
    ensures code == 0 <==> e.completed
  {
    if e.completed then 0 else 1
  }

  /** The listing request, then the IPv4 writes, then the IPv6 writes. */
  ghost predicate ListThenFamilies(calls: seq<Command>, domain: string)
  {
    && calls != [] && calls[0] == ListRecords
    && (forall i :: 1 <= i < |calls| ==> calls[i].IsWrite() && calls[i].record == domain
                                         && (calls[i].rtype == "A" || calls[i].rtype == "AAAA"))
    && (forall i, j :: 1 <= i < j < |calls| && calls[i].rtype == "AAAA" ==> calls[j].rtype == "AAAA")
  }

  lemma ListThenWrites(a: seq<Command>, b: seq<Command>, domain: string)
    requires WritesFor(a, domain, "A") && WritesFor(b, domain, "AAAA")
    ensures ListThenFamilies([ListRecords] + a + b, domain)
    ensures b == [] ==> forall i :: 1 <= i < |[ListRecords] + a + b| ==> ([ListRecords] + a + b)[i].rtype == "A"
  {
    var calls := [ListRecords] + a + b;
    assert forall i :: 1 <= i <= |a| ==> calls[i] == a[i - 1];
    assert forall i :: 1 + |a| <= i < |calls| ==> calls[i] == b[i - 1 - |a|];
  }

  /**
   * The listing is requested once, first; every later request is a write for
   * the configured domain; all A writes come before any AAAA write, and there
   * is no AAAA write unless IPv6 checking is on.
   */
  lemma RunCallOrder(domain: string, checkIpv6: bool, respond: Command -> Reply, lookup: string -> Reply)
    ensures var calls := RunPass(domain, checkIpv6, respond, lookup).calls;
            && ListThenFamilies(calls, domain)
            && (!checkIpv6 ==> forall i :: 1 <= i < |calls| ==> calls[i].rtype == "A")
  {
    match respond(ListRecords)
    case Unreachable =>
    case Answer(listing) =>
      var records := Relevant(Lines(listing), domain);
      var v4 := FamilyPass(domain, records, IP, respond, lookup);
      var v6 := if v4.completed && checkIpv6 then FamilyPass(domain, records, IPV6, respond, lookup)
                else Exec([], [], v4.completed);
      assert WritesFor(v6.calls, domain, "AAAA");
      assert !checkIpv6 ==> v6.calls == [];
      ListThenWrites(v4.calls, v6.calls, domain);
  }

  /** When both published values already equal the host's addresses, the run only lists and succeeds. */
  lemma RunUpToDate(domain: string, checkIpv6: bool, respond: Command -> Reply, lookup: string -> Reply,
                    listing: string, host4: string, host6: string)
    requires respond(ListRecords) == Answer(listing)
    requires HostAddress(lookup, IP) == Some(host4)
    requires Select(Relevant(Lines(listing), domain), domain, "A") == Some(host4)
    requires checkIpv6 ==> HostAddress(lookup, IPV6) == Some(host6)
    requires checkIpv6 ==> Select(Relevant(Lines(listing), domain), domain, "AAAA") == Some(host6)
    ensures RunPass(domain, checkIpv6, respond, lookup) == Exec([ListRecords], [], true)
  {
  }

  /**
   * When every request and address lookup gets an answer, the run completes
   * (exit status 0) and issues exactly the planned writes of both families,
   * whatever the answers say: an in-band error never stops a later step.
   */
  lemma RunCompletesDespiteInBandErrors(domain: string, checkIpv6: bool, respond: Command -> Reply,
                                         lookup: string -> Reply, listing: string, host4: string, host6: string)
    requires respond(ListRecords) == Answer(listing)
    requires forall c :: respond(c).Answer?
    requires HostAddress(lookup, IP) == Some(host4)
    requires checkIpv6 ==> HostAddress(lookup, IPV6) == Some(host6)
    ensures var records := Relevant(Lines(listing), domain);
            var e := RunPass(domain, checkIpv6, respond, lookup);
            && ExitStatus(e) == 0
            && e.calls == [ListRecords]
                          + ReconcilePlan(domain, Select(records, domain, "A"), host4, IP)
                          + (if checkIpv6 then ReconcilePlan(domain, Select(records, domain, "AAAA"), host6, IPV6)
                             else [])
            && |e.log| == |e.calls| - 1
  {
    var records := Relevant(Lines(listing), domain);
    var p4 := ReconcilePlan(domain, Select(records, domain, "A"), host4, IP);
    var p6 := ReconcilePlan(domain, Select(records, domain, "AAAA"), host6, IPV6);
    SendStops(p4, respond);
    SendLog(p4, respond);
    SendStops(p6, respond);
    SendLog(p6, respond);
    RunPassListed(domain, checkIpv6, respond, lookup, listing, records);
  }
}
