/**
 * The updater object: its configuration, and the order in which its methods
 * talk to the provider. Every API request is appended to `calls`, and the
 * success or failure event logged for every answered write to `log`.
 */
module Updater {
  import opened Wrappers
  import opened Text
  import opened Records
  import opened Commands
  import opened Reconcile

  /** Extending a trace by two parts in turn is extending it by both at once. */
  lemma AppendAssoc<T>(trace: seq<T>, a: seq<T>, b: seq<T>)
    ensures trace + (a + b) == trace + a + b
  {
  }

  class DreamHostDnsUpdater {
    /** The host name whose A (and optionally AAAA) record is kept current. */
    const domain: string
    /** Whether the AAAA record is reconciled too. */
    const checkIpv6: bool
    /** The provider API as seen from this run: its reply to each command text. */
    const api: string -> Reply
    /** The web as seen from this run: the reply to a request for each URL. */
    const lookup: string -> Reply
    /** Every API request sent so far, in order. */
    var calls: seq<Command>
    /** The success or failure event logged for each answered write, in order. */
    var log: seq<WriteLog>

    constructor (domain: string, checkIpv6: bool, api: string -> Reply, lookup: string -> Reply)
      ensures this.domain == domain && this.checkIpv6 == checkIpv6
      ensures this.api == api && this.lookup == lookup
      ensures calls == [] && log == []
    {
      this.domain := domain;
      this.checkIpv6 := checkIpv6;
      this.api := api;
      this.lookup := lookup;
      calls := [];
      log := [];
    }

    /** Sends one command to the provider and returns its reply. */
    method CallApi(command: Command) returns (reply: Reply)
      modifies this
      ensures calls == old(calls) + [command] && log == old(log)
      ensures reply == Respond(api)(command)
    {
      calls := calls + [command];
      reply := api(CommandText(command));
    }

    /**
     * Fetches the listing and keeps, in order, the lines that mention the
     * domain; `ok` is false when the request could not be made.
     */
    method GetDnsRecords() returns (ok: bool, relevant: seq<string>)
      modifies this
      ensures calls == old(calls) + [ListRecords] && log == old(log)
      ensures ok <==> Respond(api)(ListRecords).Answer?
      ensures ok ==> relevant == Relevant(Lines(Respond(api)(ListRecords).body), domain)
    {
      var response := CallApi(ListRecords);
      if response.Unreachable? {
        return false, [];
      }
      var lines := Lines(response.body);
      relevant := [];
      for i := 0 to |lines|
        invariant relevant == Relevant(lines[..i], domain)
        invariant calls == old(calls) + [ListRecords] && log == old(log)
      {
        RelevantPrefix(lines, i, domain);
        if Contains(lines[i], domain) {
          relevant := relevant + [lines[i]];
        }
      }
      assert lines[..|lines|] == lines;
      ok := true;
    }

    /** The value of the first line naming the domain with the protocol's record type, if any. */
    method GetDnsIp(records: seq<string>, protocol: string) returns (r: Option<string>)
      ensures r == Select(records, domain, RecordType(protocol))
    {
      var recType := RecordType(protocol);
      for i := 0 to |records|
        invariant Select(records[i..], domain, recType) == Select(records, domain, recType)
      {
        assert records[i..][0] == records[i] && records[i..][1..] == records[i + 1..];
        var values := Words(records[i]);
        if |values| < 5 {
          continue;
        }
        if values[2] == domain && values[3] == recType {
          return Some(values[4]);
        }
      }
      return None;
    }

    /** Asks the provider to remove the domain's record of the protocol's type with the given value. */
    method DelDnsRecord(recordValue: string, protocol: string) returns (ok: bool)
      modifies this
      ensures var c := RemoveRecord(domain, RecordType(protocol), recordValue);
              && calls == old(calls) + [c]
              && ok == Respond(api)(c).Answer?
              && log == old(log) + (if ok then [Classify(c, Respond(api)(c).body)] else [])
    {
      var command := RemoveRecord(domain, RecordType(protocol), recordValue);
      var response := CallApi(command);
      if response.Unreachable? {
        return false;
      }
      log := log + [Classify(command, response.body)];
      ok := true;
    }

    /** Asks the provider to add a record of the protocol's type with the given address. */
    method AddDnsRecord(address: string, protocol: string) returns (ok: bool)
      modifies this
      ensures var c := AddRecord(domain, RecordType(protocol), address);
              && calls == old(calls) + [c]
              && ok == Respond(api)(c).Answer?
              && log == old(log) + (if ok then [Classify(c, Respond(api)(c).body)] else [])
    {
      var command := AddRecord(domain, RecordType(protocol), address);
      var response := CallApi(command);
      if response.Unreachable? {
        return false;
      }
      log := log + [Classify(command, response.body)];
      ok := true;
    }

    /** Deletes the current value when it is truthy, then adds the new address, whatever the delete answered. */
    method UpdateDnsRecord(currentValue: Option<string>, newAddress: string, protocol: string) returns (ok: bool)
      modifies this
      ensures var e := Send(UpdatePlan(domain, currentValue, newAddress, protocol), Respond(api));
              calls == old(calls) + e.calls && log == old(log) + e.log && ok == e.completed
    {
      ghost var plan := UpdatePlan(domain, currentValue, newAddress, protocol);
      ghost var add := [AddRecord(domain, RecordType(protocol), newAddress)];
      if Truthy(currentValue) {
        ok := DelDnsRecord(currentValue.value, protocol);
        if !ok {
          assert Send(plan, Respond(api)) == Exec([plan[0]], [], false);
          return;
        }
        assert plan[1..] == add;
      }
      ok := AddDnsRecord(newAddress, protocol);
      assert Send(add, Respond(api)).calls == add;
    }

    /** The host's public address for the protocol, stripped; None when the lookup fails. */
    method GetHostIpAddress(protocol: string) returns (address: Option<string>)
      ensures address == HostAddress(lookup, protocol)
    {
      var response := lookup(HostUrl(protocol));
      if response.Unreachable? {
        return None;
      }
      return Some(Strip(response.body));
    }

    /**
     * One address family of `run`: compare the published value with the host's
     * address and update when they differ; `ok` is false after a transport failure.
     */
    method ReconcileFamily(records: seq<string>, protocol: string) returns (ok: bool)
      modifies this
      ensures var e := FamilyPass(domain, records, protocol, Respond(api), lookup);
              calls == old(calls) + e.calls && log == old(log) + e.log && ok == e.completed
    {
      var dnsIp := GetDnsIp(records, protocol);
      var hostIp := GetHostIpAddress(protocol);
      if hostIp.None? {
        return false;
      }
      FamilyPassFound(domain, records, protocol, Respond(api), lookup, dnsIp, hostIp.value);
      if dnsIp != Some(hostIp.value) {
        ok := UpdateDnsRecord(dnsIp, hostIp.value, protocol);
      } else {
        ok := true;
      }
    }

    /**
     * One reconciliation pass: list once, reconcile IPv4, then IPv6 when
     * enabled. Returns the process exit status.
     */
    method Run() returns (exitCode: int)
      modifies this
      ensures var e := RunPass(domain, checkIpv6, Respond(api), lookup);
              calls == old(calls) + e.calls && log == old(log) + e.log && exitCode == ExitStatus(e)
    {
      var ok, currentRecords := GetDnsRecords();
      if !ok {
        return 1;
      }
      RunPassListed(domain, checkIpv6, Respond(api), lookup, Respond(api)(ListRecords).body, currentRecords);
      ghost var v4 := FamilyPass(domain, currentRecords, IP, Respond(api), lookup);
      ghost var v6 := FamilyPass(domain, currentRecords, IPV6, Respond(api), lookup);
      ok := ReconcileFamily(currentRecords, IP);
      AppendAssoc(old(calls), [ListRecords], v4.calls);
      if !ok {
        return 1;
      }
      if checkIpv6 {
        ok := ReconcileFamily(currentRecords, IPV6);
        AppendAssoc(old(calls), [ListRecords] + v4.calls, v6.calls);
        AppendAssoc(old(log), v4.log, v6.log);
        if !ok {
          return 1;
        }
      }
      return 0;
    }
  }
}
