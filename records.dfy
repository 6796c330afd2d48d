/**
 * Reading the provider's record listing: the coarse filter on the configured
 * domain (`get_dns_records`) and the exact selection of one record's value
 * (`get_dns_ip`), as pure specifications.
 */
module Records {
  import opened Wrappers
  import opened Text

  /**
   * One line of the listing, field by field: account id, zone, record (the
   * host name), type, value, comment, editable. The updater itself keeps the
   * raw lines and reads fields 2, 3 and 4 of their `split()`.
   */
  datatype DnsRecord = DnsRecord(
    accountId: string, zone: string, record: string, rtype: string,
    value: string, comment: string, editable: string)

  /** The two protocols the updater is called with. */
  const IP: string := "ip"
  const IPV6: string := "ipv6"

  /** The record type a protocol stands for: `"ipv6"` is AAAA, anything else is A. */
  function RecordType(protocol: string): (t: string)
    ensures t == "AAAA" || t == "A"
    ensures t == "AAAA" <==> protocol == IPV6
  {
    if protocol == IPV6 then "AAAA" else "A"
  }

  /** The listing lines that mention `domain` anywhere, in listing order. */
  function Relevant(lines: seq<string>, domain: string): (r: seq<string>)
    ensures |r| <= |lines|
    ensures forall i :: 0 <= i < |r| ==> r[i] in lines && IsSubstring(domain, r[i])
  {
    if lines == [] then []
    else (if Contains(lines[0], domain) then [lines[0]] else []) + Relevant(lines[1..], domain)
  }

  /** Filtering a listing in two pieces is filtering each piece, in order. */
  lemma {:induction false} RelevantAppend(a: seq<string>, b: seq<string>, domain: string)
    ensures Relevant(a + b, domain) == Relevant(a, domain) + Relevant(b, domain)
  {
    if a != [] {
      assert (a + b)[0] == a[0];
      assert (a + b)[1..] == a[1..] + b;
      RelevantAppend(a[1..], b, domain);
    } else {
      assert a + b == b;
    }
  }

  /** A single line is kept exactly when it mentions the domain. */
  lemma RelevantSingle(line: string, domain: string)
    ensures Relevant([line], domain) == if IsSubstring(domain, line) then [line] else []
  {
    assert [line][1..] == [];
  }

  /** Extending the listing by its next line extends the filtered lines by that line exactly when it mentions the domain. */
  lemma RelevantPrefix(lines: seq<string>, i: nat, domain: string)
    requires i < |lines|
    ensures Relevant(lines[..i + 1], domain)
            == Relevant(lines[..i], domain) + if Contains(lines[i], domain) then [lines[i]] else []
  {
    RelevantAppend(lines[..i], [lines[i]], domain);
    RelevantSingle(lines[i], domain);
    assert lines[..i + 1] == lines[..i] + [lines[i]];
  }

  /** The filter keeps every line that mentions the domain and drops every other. */
  lemma {:induction false} RelevantMembers(lines: seq<string>, domain: string, line: string)
    ensures line in Relevant(lines, domain) <==> line in lines && IsSubstring(domain, line)
  {
    if lines != [] {
      RelevantMembers(lines[1..], domain, line);
      assert lines == [lines[0]] + lines[1..];
    }
  }

  /**
   * A listing line that names `domain` and `rtype` in fields 2 and 3 of at
   * least five fields. Only a whitespace-free, non-empty domain and type can
   * match, and a matching line mentions the domain.
   */
  predicate Matches(line: string, domain: string, rtype: string)
    ensures Matches(line, domain, rtype) ==> IsToken(domain) && IsToken(rtype) && IsSubstring(domain, line)
  {
    var f := Words(line);
    if |f| >= 5 then
      WordsAreSubstrings(line, 2);
      f[2] == domain && f[3] == rtype
    else false
  }

  /** `i` is the first line of `lines` that matches. */
  ghost predicate FirstMatchAt(lines: seq<string>, domain: string, rtype: string, i: int)
  {
    0 <= i < |lines| && Matches(lines[i], domain, rtype)
    && forall j :: 0 <= j < i ==> !Matches(lines[j], domain, rtype)
  }

  /** The value (field 4) of the first matching line, or None when no line matches. */
  function Select(lines: seq<string>, domain: string, rtype: string): (r: Option<string>)
    ensures r.None? <==> forall i :: 0 <= i < |lines| ==> !Matches(lines[i], domain, rtype)
    ensures r.Some? ==> IsToken(r.value)
  {
    if lines == [] then None
    else if Matches(lines[0], domain, rtype) then Some(Words(lines[0])[4])
    else
      assert forall i :: 1 <= i < |lines| ==> lines[i] == lines[1..][i - 1];
      Select(lines[1..], domain, rtype)
  }

  /** The selected value is field 4 of the first matching line, and only that. */
  lemma {:induction false} SelectFirstMatch(lines: seq<string>, domain: string, rtype: string, v: string)
    ensures Select(lines, domain, rtype) == Some(v)
            <==> exists i :: FirstMatchAt(lines, domain, rtype, i) && Words(lines[i])[4] == v
  {
    if lines != [] {
      if Matches(lines[0], domain, rtype) {
        assert FirstMatchAt(lines, domain, rtype, 0);
        assert forall i :: FirstMatchAt(lines, domain, rtype, i) ==> i == 0;
      } else {
        SelectFirstMatch(lines[1..], domain, rtype, v);
        forall i | FirstMatchAt(lines[1..], domain, rtype, i)
          ensures FirstMatchAt(lines, domain, rtype, i + 1)
        {
          assert lines[1..][i] == lines[i + 1];
          forall j | 0 <= j < i + 1 ensures !Matches(lines[j], domain, rtype) {
            if j > 0 { assert lines[j] == lines[1..][j - 1]; }
          }
        }
        forall i | FirstMatchAt(lines, domain, rtype, i)
          ensures i >= 1 && FirstMatchAt(lines[1..], domain, rtype, i - 1)
        {
          assert lines[1..][i - 1] == lines[i];
          forall j | 0 <= j < i - 1 ensures !Matches(lines[1..][j], domain, rtype) {
            assert lines[1..][j] == lines[j + 1];
          }
        }
      }
    }
  }

  /** The domain pre-filter never changes which value the selector finds. */
  lemma {:induction false} SelectRelevant(lines: seq<string>, domain: string, rtype: string)
    ensures Select(Relevant(lines, domain), domain, rtype) == Select(lines, domain, rtype)
  {
    if lines != [] {
      var line := lines[0];
      var kept := Relevant(lines[1..], domain);
      SelectRelevant(lines[1..], domain, rtype);
      if Matches(line, domain, rtype) {
        assert Relevant(lines, domain) == [line] + kept;
      } else if Contains(line, domain) {
        assert Relevant(lines, domain) == [line] + kept;
        assert ([line] + kept)[1..] == kept;
      } else {
        assert Relevant(lines, domain) == kept;
      }
    }
  }

  /** The seven fields of a record, in listing order. */
  function Fields(r: DnsRecord): seq<string>
  {
    [r.accountId, r.zone, r.record, r.rtype, r.value, r.comment, r.editable]
  }

  /**
   * The fields the selector reads, and the two before them, are single
   * whitespace-free tokens; the comment and the editable flag may be anything.
   */
  predicate WellFormed(r: DnsRecord)
  {
    forall i :: 0 <= i < 5 ==> IsToken(Fields(r)[i])
  }

  /** Six runs of whitespace, one after each of the first six fields of a line. */
  predicate IsLayout(gaps: seq<string>)
  {
    |gaps| == 6 && forall i :: 0 <= i < 6 ==> IsGap(gaps[i])
  }

  /** A record as a listing line: its fields in order, separated by the layout's whitespace runs. */
  function RecordLine(r: DnsRecord, gaps: seq<string>): string
    requires IsLayout(gaps)
  {
    Spaced(Fields(r)[..5], gaps[..5]) + (r.comment + gaps[5] + r.editable)
  }

  /**
   * Splitting the line of a well-formed record gives its first five fields
   * first, and exactly its seven fields when the comment and flag are tokens.
   */
  lemma RecordLineFields(r: DnsRecord, gaps: seq<string>)
    requires WellFormed(r) && IsLayout(gaps)
    ensures var f := Words(RecordLine(r, gaps)); |f| >= 5 && f[..5] == Fields(r)[..5]
    ensures IsToken(r.comment) && IsToken(r.editable) ==> Words(RecordLine(r, gaps)) == Fields(r)
  {
    var rest := r.comment + gaps[5] + r.editable;
    WordsOfSpaced(Fields(r)[..5], gaps[..5], rest);
    if IsToken(r.comment) && IsToken(r.editable) {
      assert rest == r.comment + (gaps[5] + r.editable);
      WordsOfTokenGap(r.comment, gaps[5], r.editable);
      WordsOfToken(r.editable);
      assert Fields(r) == Fields(r)[..5] + [r.comment, r.editable];
    }
  }

  /** The line of a well-formed record matches exactly its own host name and type, and carries its value. */
  lemma MatchesRecordLine(r: DnsRecord, gaps: seq<string>, domain: string, rtype: string)
    requires WellFormed(r) && IsLayout(gaps)
    ensures Matches(RecordLine(r, gaps), domain, rtype) <==> r.record == domain && r.rtype == rtype
    ensures |Words(RecordLine(r, gaps))| >= 5 && Words(RecordLine(r, gaps))[4] == r.value
  {
    RecordLineFields(r, gaps);
    var f := Words(RecordLine(r, gaps));
    assert f[2] == f[..5][2] && f[3] == f[..5][3] && f[4] == f[..5][4];
  }

  /** The value of the first record with the given host name and type, if any. */
  function FindRecord(recs: seq<DnsRecord>, domain: string, rtype: string): Option<string>
  {
    if recs == [] then None
    else if recs[0].record == domain && recs[0].rtype == rtype then Some(recs[0].value)
    else FindRecord(recs[1..], domain, rtype)
  }

  /** The listing lines of a sequence of records, each laid out with its own whitespace runs. */
  function Listing(recs: seq<DnsRecord>, layouts: seq<seq<string>>): (lines: seq<string>)
    requires |layouts| == |recs| && forall i :: 0 <= i < |layouts| ==> IsLayout(layouts[i])
    ensures |lines| == |recs|
    ensures forall i :: 0 <= i < |recs| ==> lines[i] == RecordLine(recs[i], layouts[i])
  {
    if recs == [] then [] else [RecordLine(recs[0], layouts[0])] + Listing(recs[1..], layouts[1..])
  }

  /**
   * On a listing of well-formed records, the selector finds the value of the
   * first record with the configured host name and the protocol's type.
   */
  lemma {:induction false} SelectListing(recs: seq<DnsRecord>, layouts: seq<seq<string>>, domain: string, rtype: string)
    requires |layouts| == |recs| && forall i :: 0 <= i < |layouts| ==> IsLayout(layouts[i])
    requires forall i :: 0 <= i < |recs| ==> WellFormed(recs[i])
    ensures Select(Listing(recs, layouts), domain, rtype) == FindRecord(recs, domain, rtype)
  {
    if recs != [] {
      MatchesRecordLine(recs[0], layouts[0], domain, rtype);
      assert Listing(recs, layouts)[1..] == Listing(recs[1..], layouts[1..]);
      SelectListing(recs[1..], layouts[1..], domain, rtype);
    }
  }
}
