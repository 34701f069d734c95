/**
 * Rendering search results into the text file: a two-write header naming the
 * query, then one tab-separated line per record, counted as it is written.
 */
module Results {
  import PyStr

  /** A field value of a result record, in the shapes the search API's JSON
      documents take for the fields read here. */
  datatype Value =
    | Str(text: string)
    | Int(number: int)
    | StrList(items: seq<string>)
    | Null

  /** A result record: a loosely typed mapping from field name to value; any
      key may be absent. */
  type Record = map<string, Value>

  /** How the write loop ended: after the last record, or on a raised error. */
  datatype Status = Completed | Aborted(reason: string)

  datatype Rendered = Line(text: string) | TypeError(message: string)

  const NotAvailable: string := "N/A"

  /** "No domain or hostname found": stands in for an empty hostname list. */
  const NoHostnames: string := "دامنه یا هاست\U{200C}نیم پیدا نشد"

  /** "Search results for query: ". */
  const HeaderTitle: string := "نتایج جستجو برای کوئری: "

  const RuleWidth: nat := 50

  /** The message Python's `str.join` raises with for a non-iterable argument. */
  const NotIterable: string := "can only join an iterable"

  /** `record.get(key, default)`. */
  function Get(record: Record, key: string, default: Value): Value
  {
    if key in record then record[key] else default
  }

  /** What an f-string substitutes for a value: Python's `str()`. */
  function Display(v: Value): string
  {
    match v
    case Str(t) => t
    case Int(n) => PyStr.IntToStr(n)
    case StrList(xs) => PyStr.ListRepr(xs)
    case Null => "None"
  }

  /** The text shown for the `ip_str` or `port` field. An absent key shows as
      `N/A`; a present one shows its value; it never fails. */
  function FieldText(record: Record, key: string): (t: string)
    ensures key !in record ==> t == NotAvailable
    ensures key in record ==> t == Display(record[key])
    ensures key in record && record[key].Str? ==> t == record[key].text
  {
    Display(Get(record, key, Str(NotAvailable)))
  }

  /** `", ".join(record.get('hostnames', []))`: a list joins its items; a string
      is iterated character by character; a number or null is not iterable. */
  function JoinHostnames(record: Record): Rendered
  {
    match Get(record, "hostnames", StrList([]))
    case StrList(xs) => Line(PyStr.Join(xs, ", "))
    case Str(t) => Line(PyStr.Join(PyStr.Chars(t), ", "))
    case _ => TypeError(NotIterable)
  }

  /** The hostnames text of a line: the join, or the placeholder when the
      join is empty. */
  function HostnamesText(record: Record): (h: Rendered)
    ensures h.Line? <==> "hostnames" !in record || record["hostnames"].StrList? || record["hostnames"].Str?
    ensures h.Line? ==> h.text != []
    ensures h.TypeError? ==> h.message == NotIterable
  {
    match JoinHostnames(record)
    case Line(joined) => Line(if joined == [] then NoHostnames else joined)
    case TypeError(e) => TypeError(e)
  }

  /** The layout of one result line. */
  function LineOf(ip: string, port: string, hostnames: string): string
  {
    "IP: " + ip + "\tPort: " + port + "\tHostnames: " + hostnames + "\n"
  }

  /** The line written for one record, or the error raised while building it. */
  function FormatLine(record: Record): (r: Rendered)
    ensures r.Line? <==> HostnamesText(record).Line?
    ensures r.Line? ==> |r.text| > 0 && r.text[|r.text| - 1] == '\n'
    ensures r.Line? ==> r.text == LineOf(FieldText(record, "ip_str"), FieldText(record, "port"), HostnamesText(record).text)
    ensures r.TypeError? ==> r.message == NotIterable
  {
    match HostnamesText(record)
    case Line(h) => Line(LineOf(FieldText(record, "ip_str"), FieldText(record, "port"), h))
    case TypeError(e) => TypeError(e)
  }

  /** The two header writes: the title naming the query, then a rule of `=`
      and a blank line. */
  function Header(query: string): (h: seq<string>)
    ensures |h| == 2
    ensures |h[0]| == |HeaderTitle| + |query| + 1 && h[0][..|HeaderTitle|] == HeaderTitle
    ensures h[0][|HeaderTitle|..|h[0]| - 1] == query && h[0][|h[0]| - 1] == '\n'
    ensures |h[1]| == RuleWidth + 2 && h[1][RuleWidth..] == "\n\n"
    ensures forall k :: 0 <= k < RuleWidth ==> h[1][k] == '='
  {
    [HeaderTitle + query + "\n", seq(RuleWidth, _ => '=') + "\n\n"]
  }

  /** The body of the `with open(...)` block: the header, then for each record
      from the cursor its line, counting records written. A record whose
      hostnames cannot be joined raises, which ends the loop: what was written
      before stays in the file. */
  method WriteResults(query: string, cursor: seq<Record>) returns (file: seq<string>, count: nat, status: Status)
    ensures count <= |cursor|
    ensures |file| == 2 + count
    ensures file[..2] == Header(query)
    ensures forall k :: 0 <= k < count ==> FormatLine(cursor[k]) == Line(file[2 + k])
    ensures status == Completed <==> count == |cursor|
    ensures status.Aborted? ==> FormatLine(cursor[count]) == TypeError(status.reason)
    ensures status == Completed <==> forall k :: 0 <= k < |cursor| ==> FormatLine(cursor[k]).Line?
  {
    file := [];
    var title := HeaderTitle + query + "\n";
    file := file + [title];
    file := file + [seq(RuleWidth, _ => '=') + "\n\n"];
    count := 0;
    status := Completed;
    for i := 0 to |cursor|
      invariant count == i
      invariant |file| == 2 + count
      invariant file[..2] == Header(query)
      invariant forall k :: 0 <= k < count ==> FormatLine(cursor[k]) == Line(file[2 + k])
    {
      var line := FormatLine(cursor[i]);
      if line.TypeError? {
        status := Aborted(line.message);
        return;
      }
      file := file + [line.text];
      count := count + 1;
    }
  }

  /** Finds the first `c` in `s`, or `|s|` when there is none. */
  function IndexOf(s: string, c: char): (i: nat)
    ensures i <= |s|
    ensures i < |s| ==> s[i] == c
    ensures forall k :: 0 <= k < i ==> s[k] != c
  {
    if s == [] || s[0] == c then 0 else 1 + IndexOf(s[1..], c)
  }

  datatype Option<T> = None | Some(value: T)

  /** What follows `prefix` in `s`, if `s` starts with it. */
  function AfterPrefix(s: string, prefix: string): Option<string>
  {
    if |prefix| <= |s| && s[..|prefix|] == prefix then Some(s[|prefix|..]) else None
  }

  /** `s` split at its first tab, if it has one. */
  function SplitAtTab(s: string): Option<(string, string)>
  {
    var i := IndexOf(s, '\t');
    if i == |s| then None else Some((s[..i], s[i + 1..]))
  }

  /** Reads a result line back into its three fields; `None` when the text
      does not have the layout of `LineOf`. */
  function ParseLine(line: string): Option<(string, string, string)>
  {
    match AfterPrefix(line, "IP: ")
    case None => None
    case Some(rest) =>
      match SplitAtTab(rest)
      case None => None
      case Some((ip, afterIp)) =>
        match AfterPrefix(afterIp, "Port: ")
        case None => None
        case Some(rest2) =>
          match SplitAtTab(rest2)
          case None => None
          case Some((port, afterPort)) =>
            match AfterPrefix(afterPort, "Hostnames: ")
            case None => None
            case Some(last) =>
              if last == [] || last[|last| - 1] != '\n' then None
              else Some((ip, port, last[..|last| - 1]))
  }

  lemma AfterPrefixOf(prefix: string, s: string)
    ensures AfterPrefix(prefix + s, prefix) == Some(s)
  {
    assert (prefix + s)[..|prefix|] == prefix;
  }

  /** Splitting `a + [c] + b` at the first tab gives back `a` and `b` when `a`
      holds no tab. */
  lemma SplitAtTabOf(a: string, b: string)
    requires '\t' !in a
    ensures SplitAtTab(a + ['\t'] + b) == Some((a, b))
  {
    var s := a + ['\t'] + b;
    assert s[|a|] == '\t';
    assert forall k :: 0 <= k < |a| ==> s[k] == a[k];
    assert IndexOf(s, '\t') == |a|;
    assert s[..|a|] == a && s[|a| + 1..] == b;
  }

  /** The line layout is unambiguous: as long as the IP and port texts hold no
      tab, the three fields can be read back from the line. */
  lemma LineRoundTrip(ip: string, port: string, hostnames: string)
    requires '\t' !in ip && '\t' !in port
    ensures ParseLine(LineOf(ip, port, hostnames)) == Some((ip, port, hostnames))
  {
    var last := hostnames + "\n";
    var afterPort := "Hostnames: " + last;
    var rest2 := port + ['\t'] + afterPort;
    var afterIp := "Port: " + rest2;
    var rest := ip + ['\t'] + afterIp;
    assert LineOf(ip, port, hostnames) == "IP: " + rest;
    AfterPrefixOf("IP: ", rest);
    SplitAtTabOf(ip, afterIp);
    AfterPrefixOf("Port: ", rest2);
    SplitAtTabOf(port, afterPort);
    AfterPrefixOf("Hostnames: ", last);
    assert last[..|last| - 1] == hostnames;
  }

  /** A rendered record can be read back: its line carries the IP text, the
      port text and the hostnames text in that order. */
  lemma FormatLineRoundTrip(record: Record)
    requires HostnamesText(record).Line?
    requires '\t' !in FieldText(record, "ip_str") && '\t' !in FieldText(record, "port")
    ensures ParseLine(FormatLine(record).text)
         == Some((FieldText(record, "ip_str"), FieldText(record, "port"), HostnamesText(record).text))
  {
    LineRoundTrip(FieldText(record, "ip_str"), FieldText(record, "port"), HostnamesText(record).text);
  }

  /** The placeholder appears exactly when the join is empty: the key is
      absent, the list is empty or holds one empty string, or the value is an
      empty string. */
  lemma HostnamesPlaceholder(record: Record)
    ensures "hostnames" !in record ==> HostnamesText(record) == Line(NoHostnames)
    ensures "hostnames" in record && record["hostnames"].StrList? ==>
      var xs := record["hostnames"].items;
      HostnamesText(record) == Line(if xs == [] || xs == [[]] then NoHostnames else PyStr.Join(xs, ", "))
    ensures "hostnames" in record && record["hostnames"].Str? ==>
      var t := record["hostnames"].text;
      HostnamesText(record) == Line(if t == [] then NoHostnames else PyStr.Join(PyStr.Chars(t), ", "))
  {
  }

  /** A numeric port is written as its decimal digits, which read back as the
      port number. */
  lemma PortShownAsDigits(record: Record)
    requires "port" in record && record["port"].Int? && record["port"].number >= 0
    ensures forall k :: 0 <= k < |FieldText(record, "port")| ==> PyStr.IsDigit(FieldText(record, "port")[k])
    ensures PyStr.DigitsValue(FieldText(record, "port")) == record["port"].number
  {
    PyStr.NatToStrRoundTrip(record["port"].number);
  }
}
