# dreampy_dns: a verified model of the DreamHost dynamic-DNS updater

`dreampy_dns.py` keeps the A record of a DreamHost host name, and optionally its AAAA record, equal to the
host's public address. In one run it:

- fetches the account's record listing once (`dns-list_records`);
- keeps the listing lines that mention the configured host name;
- selects the current value of the A (then AAAA) record;
- asks a public service for the host's own address;
- when the two differ, removes the old record (if there was a value) and adds the new one through the
  DreamHost API.

A write counts as failed when its response contains the text `error`. A failed write is logged and the
run goes on. A connection failure aborts the run with exit status 1.

The model has six modules:

- `Wrappers`: the `Option` type.
- `Text`: the Python string operations the updater relies on, with Python's own whitespace and
  line-boundary sets:
  - `str.splitlines()` and `str.split()`;
  - `str.strip()`;
  - the `in` substring test.
- `Records`: the record fields (`DnsRecord`), the protocol-to-type mapping, the listing filter of
  `get_dns_records` and the selector of `get_dns_ip`, as functions.
- `Commands`:
  - the three API commands and their exact text;
  - the in-band classification of a write's response;
  - a read-back of a command text into a command (`SplitOn`, `ParseCommand`). The updater does not
    do this; it is here only to prove that the text determines the command.
- `Reconcile`: the decisions of a run as pure specifications:
  - the writes `update_dns_record` issues;
  - when a family needs them;
  - how a sequence of requests plays out against the transport;
  - the whole run, and its exit status.
- `Updater`: the class `DreamHostDnsUpdater`, whose methods follow the source method by method. Every
  API request is appended to the field `calls`, and the success or failure event of every answered
  write to the field `log`. Each method is proved against a function:
  - `GetDnsRecords` and `GetDnsIp` against `Records.Relevant` and `Records.Select`;
  - `GetHostIpAddress` against `Reconcile.HostAddress`;
  - `UpdateDnsRecord`, `ReconcileFamily` and `Run` against `Reconcile.Send`, `Reconcile.FamilyPass` and
    `Reconcile.RunPass`.
  
  `CallApi`, `DelDnsRecord` and `AddDnsRecord` state their single request and log entry directly.

The network is a pair of functions given to the constructor:

- `api` maps a command text to the provider's reply;
- `lookup` maps a URL to the reply of the address-discovery service.

A reply is a body, or `Unreachable` for a connection failure (`URLError`).

## Model

| member | source | states |
|---|---|---|
| Text.Contains | dreampy_dns.py:79 | `domain in line`: true exactly when the text occurs in the line at some position |
| Text.Lines | dreampy_dns.py:77 | `splitlines()` yields lines free of every line boundary |
| Text.LinesOfJoinLines | dreampy_dns.py:77 | splitting newline-terminated lines gives back exactly those lines |
| Text.Words | dreampy_dns.py:91 | `split()` yields only non-empty, whitespace-free fields |
| Text.WordsAfterGap | dreampy_dns.py:90-91 | `split()` skips leading whitespace of any length and kind |
| Text.WordsOfSpaced | dreampy_dns.py:88-98 | splitting tokens separated by any runs of whitespace (tabs or spaces) gives back exactly those tokens, in order, whatever text follows |
| Text.WordsAreSubstrings | dreampy_dns.py:91 | every field `split()` returns occurs in the line it came from |
| Text.Strip | dreampy_dns.py:141 | the stripped address neither starts nor ends with whitespace, and only whitespace was removed around it |
| Text.StripPadded | dreampy_dns.py:141 | stripping whitespace from around a text without outer whitespace gives exactly that text |
| Records.RecordType | dreampy_dns.py:86 | `"ipv6"` maps to AAAA and every other protocol to A |
| Records.Relevant | dreampy_dns.py:76-80 | the filter keeps no more lines than the listing has, and every kept line is a listing line that mentions the domain |
| Records.RelevantAppend | dreampy_dns.py:76-80 | filtering a listing in two parts is filtering each part, keeping order |
| Records.RelevantSingle | dreampy_dns.py:79-80 | a single line is kept exactly when the domain occurs in it |
| Records.RelevantMembers | dreampy_dns.py:76-80 | a line is kept exactly when it is in the listing and contains the domain |
| Records.RelevantPrefix | dreampy_dns.py:77-80 | one more loop step appends the next line exactly when it mentions the domain |
| Records.Matches | dreampy_dns.py:91-100 | only a non-empty, whitespace-free domain and type can match, and a matching line mentions the domain |
| Records.Select | dreampy_dns.py:85-105 | None exactly when no line has at least 5 fields with field 2 equal to the domain and field 3 equal to the type; a found value is a non-empty, whitespace-free token |
| Records.SelectFirstMatch | dreampy_dns.py:88-102 | the selector returns `v` exactly when `v` is field 4 of the first matching line |
| Records.SelectRelevant | dreampy_dns.py:77-100 | the substring pre-filter never changes which value the exact selector finds |
| Records.RecordLineFields | dreampy_dns.py:89-98 | a record line whose first five fields are tokens splits into those five fields first, with any separators; into exactly its seven fields when the comment and flag are tokens |
| Records.MatchesRecordLine | dreampy_dns.py:89-100 | a record's line matches exactly its own host name and type, and field 4 is its value, whatever its comment |
| Records.SelectListing | dreampy_dns.py:88-105 | on a listing of records, each line laid out with its own whitespace separators, the selector finds the value of the first record with the host name and the protocol's type |
| Commands.CommandText | dreampy_dns.py:107-129 | the command texts are exactly `dns-list_records`, `dns-remove_record&record=…&type=…&value=…` and `dns-add_record&record=…&type=…&value=…` |
| Commands.SplitOnJoinOn | dreampy_dns.py:107-129 | splitting `&`-joined pieces without `&` gives the pieces back |
| Commands.ParsePiecesOfCommand | dreampy_dns.py:107-129 | reading back the pieces of a command gives the command |
| Commands.ParseCommandText | dreampy_dns.py:107-129 | reading back a command's text gives the command, when its fields contain no `&` |
| Commands.CommandTextInjective | dreampy_dns.py:107-129 | distinct commands without `&` in their fields have distinct texts |
| Commands.Classify | dreampy_dns.py:114-129 | a write's outcome is logged as a failure exactly when its response contains `error`, with the command and response recorded |
| Reconcile.UpdatePlan | dreampy_dns.py:131-135 | an update is one delete of the truthy current value then one add of the new address, or the add alone, all for the domain and the protocol's type |
| Reconcile.ReconcilePlan | dreampy_dns.py:160-177 | a family needs no write exactly when its published value equals the observed address, and its writes are all of its own record type |
| Reconcile.Send | dreampy_dns.py:60-72 | the requests made are a prefix of the plan, and the sequence completes exactly when every request is answered |
| Reconcile.SendStops | dreampy_dns.py:70-72 | a completed sequence made every request; an interrupted one ends at its first unanswered request |
| Reconcile.SendLog | dreampy_dns.py:114-129 | one classified outcome is logged per answered request, in plan order |
| Reconcile.DeleteAnsweredThenAdd | dreampy_dns.py:131-135 | a delete that gets any answer, even an error report, is followed by the add |
| Reconcile.HostAddress | dreampy_dns.py:137-145 | None exactly when the discovery page is unreachable; else its body with only outer whitespace removed |
| Reconcile.FamilyPass | dreampy_dns.py:155-164 | a family makes at most a delete and an add, both for the domain and its own record type; it logs at most one outcome per request, and one for every request when it completes; an unreachable discovery page ends it before any write, not completed; it completes exactly when the address is discovered and every needed write is answered |
| Reconcile.FamilyPassFound | dreampy_dns.py:155-164 | with the host address known, a family sends nothing when the values agree and the update otherwise |
| Reconcile.RunPassListed | dreampy_dns.py:150-177 | after the listing, a run is the IPv4 family, then the IPv6 family only when IPv4 completed and IPv6 checking is on |
| Reconcile.RunPass | dreampy_dns.py:147-181 | the listing is the first request, at most four writes follow, and a completed run logged the outcome of every write; an unanswered listing aborts the run with no further request |
| Reconcile.RunCompletion | dreampy_dns.py:150-181 | a run completes (status 0) exactly when the listing is answered, the IPv4 family completes, and with IPv6 checking on the IPv6 family completes too |
| Reconcile.RunStopsWithoutHostAddress | dreampy_dns.py:156-181 | after an answered listing, an unreachable IPv4 discovery page aborts the run with no write and exit status 1 |
| Reconcile.ExitStatus | dreampy_dns.py:179-181 | the exit status is 0 exactly when the run completed, and 1 otherwise |
| Reconcile.RunCallOrder | dreampy_dns.py:152-177 | the listing is requested once and first; all later requests are writes for the domain; every A write precedes every AAAA write; no AAAA write without IPv6 checking |
| Reconcile.RunUpToDate | dreampy_dns.py:160-177 | when the published values equal the host's addresses, the run only lists and exits with status 0 |
| Reconcile.RunCompletesDespiteInBandErrors | dreampy_dns.py:150-177 | when every request and address lookup is answered, the run exits with status 0 and issues exactly the planned writes, whatever the answers say |
| Updater.DreamHostDnsUpdater.constructor | dreampy_dns.py:42-52 | the updater starts with the given domain and IPv6 flag and no requests |
| Updater.DreamHostDnsUpdater.CallApi | dreampy_dns.py:60-72 | one request is appended to the trace and its reply returned |
| Updater.DreamHostDnsUpdater.GetDnsRecords | dreampy_dns.py:74-83 | one listing request; the result is the filter of the listing's lines |
| Updater.DreamHostDnsUpdater.GetDnsIp | dreampy_dns.py:85-105 | the loop with early return computes the selector, and makes no request |
| Updater.DreamHostDnsUpdater.DelDnsRecord | dreampy_dns.py:107-117 | exactly one remove request for the domain and type; its outcome is logged when answered |
| Updater.DreamHostDnsUpdater.AddDnsRecord | dreampy_dns.py:119-129 | exactly one add request for the domain and type; its outcome is logged when answered |
| Updater.DreamHostDnsUpdater.UpdateDnsRecord | dreampy_dns.py:131-135 | the requests and log are those of sending the update plan |
| Updater.DreamHostDnsUpdater.GetHostIpAddress | dreampy_dns.py:137-145 | the stripped body from the protocol's discovery URL, or None when unreachable |
| Updater.DreamHostDnsUpdater.ReconcileFamily | dreampy_dns.py:155-164 | the requests and log are those of the family's specification |
| Updater.DreamHostDnsUpdater.Run | dreampy_dns.py:147-181 | the requests, log and exit status are those of the run's specification |

## Left out

- The API key, the `unique_id` from `uuid.uuid4()` and the URL prefix (dreampy_dns.py:54-58) are left out. Only the `cmd` part of each request is modelled.
- The HTTP transport is not modelled. `urlopen` and UTF-8 decoding are replaced by the `api` and `lookup` functions.
  - These functions give the same reply to the same text within a run.
  - A run never sends the same command twice, so this loses nothing.
  - Errors other than `URLError` (for example a decoding error) appear only as `Unreachable`.
- Reading the configuration from the environment, the parsing of `CHECK_IPV6`, and `sys.exit` on an empty key or domain (dreampy_dns.py:42-52) are left out. The constructor takes the domain and the flag directly.
- Logging other than the success or failure of a write is left out. This covers debug and info events, and the `self.log` binding.
- `expandtabs()` (dreampy_dns.py:91) is left out. Tabs are whitespace for `split()`, so it cannot change the fields.
- The `try`/`except` around `run` (dreampy_dns.py:149-181) is modelled only as "stop at the first unanswered request, exit status 1". The exception value and its message are not kept.
- Commands.ParseCommandText: the command text is sent without URL escaping. The round trip therefore holds only when the record fields contain no `&`, which is what `Unambiguous` requires. The model states no more than that.
- `DNSRecord` is never built by the updater itself. It is used here only to describe a listing line's layout (`Records.RecordLine`).
