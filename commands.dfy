/**
 * The provider API commands the updater sends (`dns-list_records`,
 * `dns-remove_record`, `dns-add_record`), their exact text, and the in-band
 * classification of a write's response. `SplitOn` and `ParseCommand` are not
 * part of the updater: they read a command text back, to show that the text
 * determines the command.
 */
module Commands {
  import opened Wrappers
  import opened Text

  datatype Command =
    | ListRecords
    | RemoveRecord(record: string, rtype: string, value: string)
    | AddRecord(record: string, rtype: string, value: string)
  {
    /** A command that changes the provider's records. */
    predicate IsWrite()
    {
      !ListRecords?
    }
  }

  /** The `&`-separated pieces of the request the updater sends for a command. */
  function Pieces(c: Command): (ps: seq<string>)
    ensures |ps| >= 1
  {
    match c
    case ListRecords => ["dns-list_records"]
    case RemoveRecord(d, t, v) => ["dns-remove_record", "record=" + d, "type=" + t, "value=" + v]
    case AddRecord(d, t, a) => ["dns-add_record", "record=" + d, "type=" + t, "value=" + a]
  }

  /** `sep.join(ps)` in Python. */
  function JoinOn(ps: seq<string>, sep: char): string
    requires |ps| >= 1
  {
    if |ps| == 1 then ps[0] else ps[0] + [sep] + JoinOn(ps[1..], sep)
  }

  /** Joining four pieces. */
  lemma JoinOnFour(ps: seq<string>, sep: char)
    requires |ps| == 4
    ensures JoinOn(ps, sep) == ps[0] + [sep] + (ps[1] + [sep] + (ps[2] + [sep] + ps[3]))
  {
    assert JoinOn(ps[1..][1..][1..], sep) == ps[3];
    assert JoinOn(ps[1..][1..], sep) == ps[2] + [sep] + ps[3];
  }

  /** The four pieces of a write, joined, read as the request text. */
  lemma WriteShape(verb: string, d: string, t: string, v: string)
    ensures verb + ['&'] + (("record=" + d) + ['&'] + (("type=" + t) + ['&'] + ("value=" + v)))
         == verb + "&record=" + d + "&type=" + t + "&value=" + v
  {
  }

  /** The `cmd` part of the request the updater sends: `verb&record=…&type=…&value=…` for a write. */
  function CommandText(c: Command): (t: string)
    ensures c.ListRecords? ==> t == "dns-list_records"
    ensures c.RemoveRecord? ==> t == "dns-remove_record" + "&record=" + c.record + "&type=" + c.rtype + "&value=" + c.value
    ensures c.AddRecord? ==> t == "dns-add_record" + "&record=" + c.record + "&type=" + c.rtype + "&value=" + c.value
  {
    var ps := Pieces(c);
    if c.IsWrite() then
      JoinOnFour(ps, '&');
      WriteShape(ps[0], c.record, c.rtype, c.value);
      JoinOn(ps, '&')
    else JoinOn(ps, '&')
  }

  /** The character test for `sep`. */
  function IsChar(sep: char): char -> bool
  {
    c => c == sep
  }

  /** `s.split(sep)` in Python: the pieces between occurrences of `sep`, at least one. */
  function SplitOn(s: string, sep: char): (r: seq<string>)
    ensures |r| >= 1
    ensures forall i :: 0 <= i < |r| ==> sep !in r[i]
    decreases |s|
  {
    var n := Until(s, IsChar(sep));
    assert forall i :: 0 <= i < n ==> s[..n][i] == s[i];
    if n == |s| then [s] else [s[..n]] + SplitOn(s[n + 1..], sep)
  }

  /** A piece without the separator, the separator, then the rest: the piece comes first. */
  lemma SplitOnCons(a: string, sep: char, b: string)
    requires sep !in a
    ensures SplitOn(a + [sep] + b, sep) == [a] + SplitOn(b, sep)
  {
    var s := a + [sep] + b;
    assert forall i :: 0 <= i < |a| ==> a[i] != sep;
    UntilAt(a, [sep] + b, IsChar(sep));
    assert s == a + ([sep] + b);
    assert s[..|a|] == a;
    assert s[|a| + 1..] == b;
  }

  /** Text without the separator is one piece. */
  lemma SplitOnNone(a: string, sep: char)
    requires sep !in a
    ensures SplitOn(a, sep) == [a]
  {
    assert forall i :: 0 <= i < |a| ==> a[i] != sep;
  }

  /** Splitting pieces joined by a separator they do not contain gives the pieces back. */
  lemma {:induction false} SplitOnJoinOn(ps: seq<string>, sep: char)
    requires |ps| >= 1
    requires forall i :: 0 <= i < |ps| ==> sep !in ps[i]
    ensures SplitOn(JoinOn(ps, sep), sep) == ps
  {
    if |ps| == 1 {
      SplitOnNone(ps[0], sep);
    } else {
      SplitOnCons(ps[0], sep, JoinOn(ps[1..], sep));
      SplitOnJoinOn(ps[1..], sep);
      assert ps == [ps[0]] + ps[1..];
    }
  }

  /** `s` starts with `p`. */
  predicate HasPrefix(s: string, p: string)
  {
    |p| <= |s| && s[..|p|] == p
  }

  /** Reads `&`-separated pieces back as a command: a verb, then `key=value` pieces. */
  function ParsePieces(parts: seq<string>): Option<Command>
  {
    if parts == ["dns-list_records"] then Some(ListRecords)
    else if |parts| == 4 && HasPrefix(parts[1], "record=") && HasPrefix(parts[2], "type=")
            && HasPrefix(parts[3], "value=") then
      var d, t, v := parts[1][7..], parts[2][5..], parts[3][6..];
      if parts[0] == "dns-remove_record" then Some(RemoveRecord(d, t, v))
      else if parts[0] == "dns-add_record" then Some(AddRecord(d, t, v))
      else None
    else None
  }

  /** Reads a command text back as a command. */
  function ParseCommand(text: string): Option<Command>
  {
    ParsePieces(SplitOn(text, '&'))
  }

  /** The fields of a command can be sent without escaping. */
  predicate Unambiguous(c: Command)
  {
    c.IsWrite() ==> '&' !in c.record && '&' !in c.rtype && '&' !in c.value
  }

  /** A key followed by its value starts with the key, and the value follows it. */
  lemma KeyValue(key: string, v: string)
    ensures HasPrefix(key + v, key) && (key + v)[|key|..] == v
  {
  }

  /** Reading back the pieces of a command gives the command. */
  lemma ParsePiecesOfCommand(c: Command)
    ensures ParsePieces(Pieces(c)) == Some(c)
  {
    if c.IsWrite() {
      KeyValue("record=", c.record);
      KeyValue("type=", c.rtype);
      KeyValue("value=", c.value);
      if c.AddRecord? {
        assert Pieces(c)[0][4] != "dns-remove_record"[4];
      }
    }
  }

  /** Reading back the text of a command gives the command. */
  lemma ParseCommandText(c: Command)
    requires Unambiguous(c)
    ensures ParseCommand(CommandText(c)) == Some(c)
  {
    var ps := Pieces(c);
    assert forall i :: 0 <= i < |ps| ==> '&' !in ps[i];
    SplitOnJoinOn(ps, '&');
    ParsePiecesOfCommand(c);
  }

  /** Commands with unambiguous fields have distinct texts. */
  lemma CommandTextInjective(c1: Command, c2: Command)
    requires Unambiguous(c1) && Unambiguous(c2)
    requires CommandText(c1) == CommandText(c2)
    ensures c1 == c2
  {
    ParseCommandText(c1);
    ParseCommandText(c2);
  }

  /** The event logged for the provider's response to a write. */
  datatype WriteLog =
    | Succeeded(cmd: Command, response: string)
    | Rejected(cmd: Command, response: string)

  /** A write's response reports a failure exactly when it contains `"error"`. */
  function Classify(cmd: Command, response: string): (r: WriteLog)
    ensures r.cmd == cmd && r.response == response
    ensures r.Rejected? <==> IsSubstring("error", response)
  {
    if Contains(response, "error") then Rejected(cmd, response) else Succeeded(cmd, response)
  }
}
