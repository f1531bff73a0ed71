/**
 The IOS driver's MAC address table scan: one pass over `show mac address-table` with three
 fill-down variables. Lines arrive already classified and cut into tokens.
 */
module MacTable {
  import opened Prelude
  import opened Text

  /** A port column split at its commas: one part when it has none. */
  type PortList = ports: seq<string> | |ports| >= 1 witness [""]

  /**
   - Single: Format1 and Cat4500 rows, whose port column is taken whole
   - Ports: Cat6500 and Cat2960 rows, whose port column may be a comma list
   - Continuation: an indented line carrying only further ports
   - Skipped: blank lines, headers and totals
   - Unexpected: anything else, and Format1 rows without exactly four tokens
   */
  datatype Line =
    | Single(vlan: string, mac: string, macType: string, port: string)
    | Ports(vlan: string, mac: string, macType: string, ports: PortList)
    | Continuation(ports: PortList)
    | Skipped
    | Unexpected

  datatype Entry = Entry(mac: string, interface: string, vlan: nat, isStatic: bool, active: bool)

  datatype Error = ValueError

  /** The row fields an entry is made of, its port aside. */
  datatype Fields = Fields(vlan: string, mac: string, macType: string)

  const BLANK := Fields("", "", "")

  function Process(f: Fields, port: string): Result<Entry, Error> {
    var kind := Lower(f.macType);
    var isStatic := kind in ["self", "static", "system"];
    var vlan := if isStatic && Lower(f.vlan) == "all" then Some(0) else ParseInt(f.vlan);
    var lowered := Lower(port);
    var internal := lowered == "cpu" || Occurs("router", lowered) || Occurs("switch", lowered);
    match vlan
    case None => Raised(ValueError)
    case Some(v) => Ok(Entry(f.mac, if isStatic && internal then "" else port, v, isStatic, kind == "dynamic"))
  }

  // ----- what the table means, line by line; `make` stands for Process

  type Maker = (Fields, string) -> Result<Entry, Error>

  /** A row that sets the fill-down variables. */
  predicate IsCommaRow(line: Line) {
    line.Ports? && |line.ports| > 1
  }

  /** The fields of the nearest comma row among the first n lines; blank when there is none. */
  function Inherited(lines: seq<Line>, n: nat): Fields
    requires n <= |lines|
  {
    if n == 0 then BLANK
    else
      var line := lines[n - 1];
      if IsCommaRow(line) then Fields(line.vlan, line.mac, line.macType) else Inherited(lines, n - 1)
  }

  /** The ports one line lists. */
  function PortsOf(line: Line): seq<string> {
    match line
    case Single(_, _, _, port) => [port]
    case Ports(_, _, _, ports) => ports
    case Continuation(ports) => ports
    case _ => []
  }

  /** The fields of a line's entries: its own, or those filled down from an earlier line. */
  function LineFields(line: Line, fill: Fields): Fields {
    match line
    case Single(vlan, mac, macType, _) => Fields(vlan, mac, macType)
    case Ports(vlan, mac, macType, _) => Fields(vlan, mac, macType)
    case _ => fill
  }

  function FieldsOf(lines: seq<Line>, i: nat): Fields
    requires i < |lines|
  {
    LineFields(lines[i], Inherited(lines, i))
  }

  /** The entries of the given ports, or the first failure. */
  function ProcessAll(make: Maker, f: Fields, ports: seq<string>): Result<seq<Entry>, Error> {
    if ports == [] then Ok([])
    else
      match (ProcessAll(make, f, ports[..|ports| - 1]), make(f, ports[|ports| - 1]))
      case (Ok(es), Ok(e)) => Ok(es + [e])
      case _ => Raised(ValueError)
  }

  function LineEntries(make: Maker, line: Line, fill: Fields): Result<seq<Entry>, Error> {
    if line.Unexpected? then Raised(ValueError) else ProcessAll(make, LineFields(line, fill), PortsOf(line))
  }

  function Expansion(make: Maker, lines: seq<Line>, i: nat): Result<seq<Entry>, Error>
    requires i < |lines|
  {
    LineEntries(make, lines[i], Inherited(lines, i))
  }

  /** The table of the first n lines: their expansions in order. */
  function Table(make: Maker, lines: seq<Line>, n: nat): Result<seq<Entry>, Error>
    requires n <= |lines|
  {
    if n == 0 then Ok([])
    else
      match (Table(make, lines, n - 1), Expansion(make, lines, n - 1))
      case (Ok(t), Ok(es)) => Ok(t + es)
      case _ => Raised(ValueError)
  }

  /** Where the entries of line i start in the table. */
  function Offset(lines: seq<Line>, i: nat): nat
    requires i <= |lines|
  {
    if i == 0 then 0 else Offset(lines, i - 1) + |PortsOf(lines[i - 1])|
  }

  // ----- the scan

  /** Appends one entry per port. */
  method AppendPorts(make: Maker, table: seq<Entry>, f: Fields, ports: seq<string>)
      returns (r: Result<seq<Entry>, Error>)
    ensures ProcessAll(make, f, ports).Raised? ==> r == Raised(ValueError)
    ensures ProcessAll(make, f, ports).Ok? ==> r == Ok(table + ProcessAll(make, f, ports).value)
  {
    var all := table;
    for i := 0 to |ports|
      invariant ProcessAll(make, f, ports[..i]).Ok? && all == table + ProcessAll(make, f, ports[..i]).value
    {
      assert ports[..i + 1][..i] == ports[..i];
      match make(f, ports[i]) {
        case Raised(e) =>
          assert e == ValueError;
          ProcessAllStops(make, f, ports, i + 1);
          return Raised(e);
        case Ok(e) => all := all + [e];
      }
    }
    assert ports[..|ports|] == ports;
    return Ok(all);
  }

  lemma {:induction false} ProcessAllStops(make: Maker, f: Fields, ports: seq<string>, n: nat)
    requires n <= |ports| && ProcessAll(make, f, ports[..n]).Raised?
    ensures ProcessAll(make, f, ports).Raised?
  {
    if n == |ports| {
      assert ports[..n] == ports;
    } else {
      assert ports[..|ports| - 1][..n] == ports[..n];
      ProcessAllStops(make, f, ports[..|ports| - 1], n);
    }
  }

  lemma {:induction false} TableStops(make: Maker, lines: seq<Line>, n: nat, m: nat)
    requires n <= m <= |lines| && Table(make, lines, n).Raised?
    ensures Table(make, lines, m).Raised?
  {
    if n < m {
      TableStops(make, lines, n, m - 1);
    }
  }

  lemma TableStep(make: Maker, lines: seq<Line>, n: nat)
    requires n < |lines| && Table(make, lines, n).Ok?
    ensures Expansion(make, lines, n).Raised? ==> Table(make, lines, |lines|) == Raised(ValueError)
    ensures Expansion(make, lines, n).Ok? ==>
              Table(make, lines, n + 1) == Ok(Table(make, lines, n).value + Expansion(make, lines, n).value)
  {
    if Expansion(make, lines, n).Raised? {
      TableStops(make, lines, n + 1, |lines|);
    }
  }

  /** One line: the table with its entries, and the fill-down variables it leaves. */
  method ScanLine(make: Maker, table: seq<Entry>, line: Line, fill: Fields)
      returns (r: Result<seq<Entry>, Error>, filled: Fields)
    ensures filled == if IsCommaRow(line) then LineFields(line, fill) else fill
    ensures LineEntries(make, line, fill).Raised? ==> r == Raised(ValueError)
    ensures LineEntries(make, line, fill).Ok? ==> r == Ok(table + LineEntries(make, line, fill).value)
  {
    filled := fill;
    match line {
      case Continuation(ports) =>
        r := AppendPorts(make, table, fill, ports);
      case Skipped =>
        r := Ok(table);
        assert table + [] == table;
      case Unexpected =>
        r := Raised(ValueError);
      case Single(vlan, mac, macType, port) =>
        r := AppendPorts(make, table, Fields(vlan, mac, macType), [port]);
      case Ports(vlan, mac, macType, ports) =>
        if |ports| > 1 {
          filled := Fields(vlan, mac, macType);
        }
        r := AppendPorts(make, table, Fields(vlan, mac, macType), ports);
    }
  }

  /** A scanned line takes the table and the fill-down variables one line further, or ends the scan. */
  lemma ScannedStep(make: Maker, lines: seq<Line>, n: nat, table: seq<Entry>, fill: Fields,
      appended: Result<seq<Entry>, Error>, filled: Fields)
    requires n < |lines| && Table(make, lines, n) == Ok(table) && Inherited(lines, n) == fill
    requires filled == if IsCommaRow(lines[n]) then LineFields(lines[n], fill) else fill
    requires LineEntries(make, lines[n], fill).Raised? ==> appended == Raised(ValueError)
    requires LineEntries(make, lines[n], fill).Ok? ==> appended == Ok(table + LineEntries(make, lines[n], fill).value)
    ensures appended.Raised? ==> appended == Table(make, lines, |lines|)
    ensures appended.Ok? ==> appended == Table(make, lines, n + 1) && filled == Inherited(lines, n + 1)
  {
    TableStep(make, lines, n);
  }

  /** The line loop. Besides the table it leaves the last row's vlan text in `lastVlan`, the
      variable that also held the caller's vlan argument. */
  method Scan(make: Maker, lines: seq<Line>) returns (r: Result<seq<Entry>, Error>, lastVlan: Option<string>)
    requires forall port :: make(BLANK, port).Raised?
    ensures r == Table(make, lines, |lines|)
    ensures r.Ok? && r.value != [] ==> lastVlan.Some?
  {
    var table: seq<Entry> := [];
    var fill := BLANK;
    lastVlan := None;
    for n := 0 to |lines|
      invariant Table(make, lines, n) == Ok(table)
      invariant Inherited(lines, n) == fill
      invariant lastVlan.None? ==> table == [] && fill == BLANK
    {
      var line := lines[n];
      var appended, filled := ScanLine(make, table, line, fill);
      ScannedStep(make, lines, n, table, fill, appended, filled);
      if lastVlan.None? {
        BlankLine(make, line);
      }
      if line.Single? || line.Ports? {
        lastVlan := Some(line.vlan);
      }
      if appended.Raised? {
        return Raised(appended.error), lastVlan;
      }
      table, fill := appended.value, filled;
    }
    return Ok(table), lastVlan;
  }

  /** Before the first row only lines without entries go well. */
  lemma BlankLine(make: Maker, line: Line)
    requires forall port :: make(BLANK, port).Raised?
    ensures line.Single? || line.Ports? || LineEntries(make, line, BLANK).Raised?
            || LineEntries(make, line, BLANK) == Ok([])
  {
    if line.Continuation? {
      BlankRaises(make, line.ports);
    }
  }

  /** Without an earlier comma row a continuation line is a failure, since `int('')` is. */
  lemma BlankRaises(make: Maker, ports: seq<string>)
    requires |ports| >= 1 && make(BLANK, ports[|ports| - 1]).Raised?
    ensures ProcessAll(make, BLANK, ports).Raised?
  {
  }

  lemma {:induction false} TableLength(make: Maker, lines: seq<Line>, n: nat)
    requires n <= |lines| && Table(make, lines, n).Ok?
    ensures |Table(make, lines, n).value| == Offset(lines, n)
  {
    if n > 0 {
      TableLength(make, lines, n - 1);
      ProcessAllLength(make, FieldsOf(lines, n - 1), PortsOf(lines[n - 1]));
    }
  }

  /** The entries of line i occupy consecutive places, one per port, all made of the line's own fields
      or, for a continuation line, of the nearest earlier comma row's. With TableLength, nothing else
      is in the table. */
  lemma {:induction false} TableLayout(make: Maker, lines: seq<Line>, n: nat, i: nat, p: nat)
    requires i < n <= |lines| && Table(make, lines, n).Ok?
    requires p < |PortsOf(lines[i])|
    ensures Offset(lines, i) + p < |Table(make, lines, n).value|
    ensures make(FieldsOf(lines, i), PortsOf(lines[i])[p]) == Ok(Table(make, lines, n).value[Offset(lines, i) + p])
  {
    if i < n - 1 {
      TableGrows(make, lines, n);
      TableLayout(make, lines, n - 1, i, p);
    } else {
      LastLineLayout(make, lines, n, p);
    }
  }

  lemma LastLineLayout(make: Maker, lines: seq<Line>, n: nat, p: nat)
    requires 0 < n <= |lines| && Table(make, lines, n).Ok? && p < |PortsOf(lines[n - 1])|
    ensures Offset(lines, n - 1) + p < |Table(make, lines, n).value|
    ensures make(FieldsOf(lines, n - 1), PortsOf(lines[n - 1])[p])
            == Ok(Table(make, lines, n).value[Offset(lines, n - 1) + p])
  {
    TableGrows(make, lines, n);
    TableLength(make, lines, n - 1);
    ProcessAllLayout(make, FieldsOf(lines, n - 1), PortsOf(lines[n - 1]), p);
  }

  lemma TableGrows(make: Maker, lines: seq<Line>, n: nat)
    requires 0 < n <= |lines| && Table(make, lines, n).Ok?
    ensures Table(make, lines, n - 1).Ok?
    ensures ProcessAll(make, FieldsOf(lines, n - 1), PortsOf(lines[n - 1])).Ok?
    ensures Table(make, lines, n).value
            == Table(make, lines, n - 1).value + ProcessAll(make, FieldsOf(lines, n - 1), PortsOf(lines[n - 1])).value
  {
  }

  lemma {:induction false} ProcessAllLength(make: Maker, f: Fields, ports: seq<string>)
    requires ProcessAll(make, f, ports).Ok?
    ensures |ProcessAll(make, f, ports).value| == |ports|
  {
    if ports != [] {
      ProcessAllLength(make, f, ports[..|ports| - 1]);
    }
  }

  lemma {:induction false} ProcessAllLayout(make: Maker, f: Fields, ports: seq<string>, p: nat)
    requires ProcessAll(make, f, ports).Ok? && p < |ports|
    ensures |ProcessAll(make, f, ports).value| == |ports|
    ensures make(f, ports[p]) == Ok(ProcessAll(make, f, ports).value[p])
  {
    ProcessAllLength(make, f, ports);
    if p < |ports| - 1 {
      ProcessAllLayout(make, f, ports[..|ports| - 1], p);
    }
  }

  /** The scan fails exactly when the expansion of some line does. */
  lemma {:induction false} TableRaises(make: Maker, lines: seq<Line>, n: nat)
    requires n <= |lines|
    ensures Table(make, lines, n).Raised? <==> exists i :: 0 <= i < n && Expansion(make, lines, i).Raised?
  {
    if n > 0 {
      TableRaises(make, lines, n - 1);
    }
  }

  /** A line's expansion fails exactly when it is unexpected or one of its ports makes no entry. */
  lemma ExpansionRaises(make: Maker, lines: seq<Line>, i: nat)
    requires i < |lines|
    ensures Expansion(make, lines, i).Raised? <==>
            lines[i].Unexpected?
            || exists p :: 0 <= p < |PortsOf(lines[i])| && make(FieldsOf(lines, i), PortsOf(lines[i])[p]).Raised?
  {
    ProcessAllRaises(make, FieldsOf(lines, i), PortsOf(lines[i]));
  }

  lemma {:induction false} ProcessAllRaises(make: Maker, f: Fields, ports: seq<string>)
    ensures ProcessAll(make, f, ports).Raised? <==> exists p :: 0 <= p < |ports| && make(f, ports[p]).Raised?
  {
    if ports != [] {
      ProcessAllRaises(make, f, ports[..|ports| - 1]);
    }
  }

  /** The nearest earlier comma row, as a position: nothing between it and line n sets the fill-down variables. */
  lemma {:induction false} InheritedIsNearest(lines: seq<Line>, n: nat)
    requires n <= |lines|
    ensures (exists j :: 0 <= j < n && IsCommaRow(lines[j]) && (forall k | j < k < n :: !IsCommaRow(lines[k]))
                         && Inherited(lines, n) == Fields(lines[j].vlan, lines[j].mac, lines[j].macType))
            || (Inherited(lines, n) == BLANK && forall k | 0 <= k < n :: !IsCommaRow(lines[k]))
  {
    if n > 0 && !IsCommaRow(lines[n - 1]) {
      InheritedIsNearest(lines, n - 1);
    }
  }

  // ----- the lookup

  /** `s.replace(old, new)` for a non-empty old. */
  function Replace(s: string, old': string, new': string): string
    requires old' != ""
  {
    if |s| < |old'| then s
    else if old' <= s then new' + Replace(s[|old'|..], old', new')
    else [s[0]] + Replace(s[1..], old', new')
  }

  function Abbreviated(name: string): string {
    Replace(Replace(name, "GigabitEthernet", "Gi"), "TenGigabitEthernet", "Ti")
  }

  /** What a MAC lookup returns for one entry. */
  datatype MacOnVlan = MacOnVlan(mac: string, vlan: nat)

  /** The Python value of the `vlan` variable after the scan: the caller's integer, or the text of the last row. */
  datatype VlanFilter = NoFilter | Number(n: nat) | Token(text: string)

  /** `vlan and vlan == entry['vlan']`: an integer compares, a text never equals one. */
  predicate FilterMatches(filter: VlanFilter, e: Entry) {
    filter.Number? && filter.n != 0 && filter.n == e.vlan
  }

  /** Entry k is the first one of the interface. */
  predicate IsFirst(table: seq<Entry>, interface: string, k: nat) {
    k < |table| && table[k].interface == interface && forall j | 0 <= j < k :: table[j].interface != interface
  }

  /** `get_mac_addresses_on_interface`: the first entry of the interface and nothing else. The vlan
      argument never selects an entry, because the scan has overwritten it with text by then. */
  method GetMacAddresses(lines: seq<Line>, name: string, vlan: Option<nat>) returns (r: Result<seq<MacOnVlan>, Error>)
    ensures r.Raised? <==> exists i | 0 <= i < |lines| :: BadLine(lines, i)
    ensures r.Ok? && (exists i: nat, p: nat | At(lines, i, p) :: ShownAt(lines, i, p) == Abbreviated(name)) ==>
              |r.value| == 1 && Answers(lines, Abbreviated(name), r.value[0])
    ensures r.Ok? && (forall i: nat, p: nat | At(lines, i, p) :: ShownAt(lines, i, p) != Abbreviated(name)) ==>
              r.value == []
  {
    LookupRaises(lines);
    var scanned, lastVlan := Scan(Process, lines);
    if scanned.Raised? {
      return Raised(scanned.error);
    }
    var table := scanned.value;
    var filter := match lastVlan
      case Some(text) => Token(text)
      case None => match vlan case Some(n) => Number(n) case None => NoFilter;
    var interface := Abbreviated(name);
    for k := 0 to |table|
      invariant forall j | 0 <= j < k :: table[j].interface != interface
    {
      if interface == table[k].interface || FilterMatches(filter, table[k]) {
        FirstEntryAnswers(lines, interface, k);
        return Ok([MacOnVlan(table[k].mac, table[k].vlan)]);
      }
    }
    NoneShown(lines, interface);
    return Ok([]);
  }

  // ----- what an entry holds

  /** The ports a line lists and the fields of their entries: its own, or those of the nearest earlier comma row. */
  lemma LinesTellTheirFields(lines: seq<Line>, i: nat)
    requires i < |lines|
    ensures var f := FieldsOf(lines, i);
            match lines[i]
            case Single(vlan, mac, macType, port) =>
              PortsOf(lines[i]) == [port] && f.vlan == vlan && f.mac == mac && f.macType == macType
            case Ports(vlan, mac, macType, ports) =>
              PortsOf(lines[i]) == ports && f.vlan == vlan && f.mac == mac && f.macType == macType
            case Continuation(ports) =>
              && PortsOf(lines[i]) == ports
              && (|| f == BLANK
                  || exists j | 0 <= j < i && lines[j].Ports? && |lines[j].ports| > 1 ::
                       && (forall k | j < k < i :: lines[k].Ports? ==> |lines[k].ports| == 1)
                       && f.vlan == lines[j].vlan && f.mac == lines[j].mac && f.macType == lines[j].macType)
            case _ => PortsOf(lines[i]) == []
  {
    InheritedIsNearest(lines, i);
  }

  /** The types of entries that are not learned. */
  predicate StaticType(f: Fields) {
    Lower(f.macType) == "self" || Lower(f.macType) == "static" || Lower(f.macType) == "system"
  }

  /** A static row for all VLANs. */
  predicate ForAllVlans(f: Fields) {
    StaticType(f) && Lower(f.vlan) == "all"
  }

  /** The switch itself: no interface is shown for its static addresses. */
  predicate InternalPort(port: string) {
    Lower(port) == "cpu" || Occurs("router", Lower(port)) || Occurs("switch", Lower(port))
  }

  /** A row makes no entry exactly if its vlan text is neither a number nor the "all" of a static row. The
      entry has the row's address, the number of its vlan text or 0 for "all", the port as its interface or,
      of a static row on the switch itself, none, and its type by the type text. */
  lemma EntryExactly(f: Fields, port: string)
    ensures Process(f, port).Raised? <==> !IsNumeral(f.vlan) && !ForAllVlans(f)
    ensures Process(f, port).Ok? ==>
              var e := Process(f, port).value;
              && e.mac == f.mac && (if ForAllVlans(f) then e.vlan == 0 else e.vlan == ParseNat(f.vlan))
              && e.interface == (if StaticType(f) && InternalPort(port) then "" else port)
              && (e.isStatic <==> StaticType(f)) && (e.active <==> Lower(f.macType) == "dynamic")
  {
    assert IsNumeral(f.vlan) ==> IsDigit(f.vlan[0]) && Lower(f.vlan)[0] == f.vlan[0];
  }

  /** Line i and its port p, counted as the scan meets them. */
  predicate At(lines: seq<Line>, i: nat, p: nat) {
    i < |lines| && p < |PortsOf(lines[i])|
  }

  /** The interface shown for port p of line i. */
  function ShownAt(lines: seq<Line>, i: nat, p: nat): string
    requires At(lines, i, p)
  {
    if StaticType(FieldsOf(lines, i)) && InternalPort(PortsOf(lines[i])[p]) then "" else PortsOf(lines[i])[p]
  }

  predicate Before(i: nat, p: nat, j: nat, q: nat) {
    i < j || (i == j && p < q)
  }

  /** Port p of line i is the first one shown as the interface. */
  ghost predicate FirstShown(lines: seq<Line>, name: string, i: nat, p: nat) {
    && At(lines, i, p) && ShownAt(lines, i, p) == name
    && forall j: nat, q: nat | Before(j, q, i, p) && At(lines, j, q) :: ShownAt(lines, j, q) != name
  }

  /** Every place of the table belongs to one port of one line. */
  lemma {:induction false} PlaceOf(lines: seq<Line>, n: nat, k: nat) returns (i: nat, p: nat)
    requires n <= |lines| && k < Offset(lines, n)
    ensures i < n && At(lines, i, p) && k == Offset(lines, i) + p
  {
    if k < Offset(lines, n - 1) {
      i, p := PlaceOf(lines, n - 1, k);
    } else {
      i, p := n - 1, k - Offset(lines, n - 1);
    }
  }

  /** And the places are in the order of lines and ports. */
  lemma {:induction false} PlacesInOrder(lines: seq<Line>, i: nat, p: nat, j: nat, q: nat)
    requires At(lines, i, p) && At(lines, j, q) && Before(i, p, j, q)
    ensures Offset(lines, i) + p < Offset(lines, j) + q
  {
    if i < j {
      OffsetGrows(lines, i + 1, j);
    }
  }

  lemma {:induction false} OffsetGrows(lines: seq<Line>, i: nat, j: nat)
    requires i <= j <= |lines|
    ensures Offset(lines, i) <= Offset(lines, j)
  {
    if i < j {
      OffsetGrows(lines, i, j - 1);
    }
  }

  /** The entry of port p of line i, wherever it stands. */
  lemma EntryAt(lines: seq<Line>, i: nat, p: nat)
    requires At(lines, i, p) && Table(Process, lines, |lines|).Ok?
    ensures var table, k := Table(Process, lines, |lines|).value, Offset(lines, i) + p;
            var f := FieldsOf(lines, i);
            && k < |table| && table[k].interface == ShownAt(lines, i, p)
            && Tells(f, MacOnVlan(table[k].mac, table[k].vlan))
  {
    TableLayout(Process, lines, |lines|, i, p);
    EntryExactly(FieldsOf(lines, i), PortsOf(lines[i])[p]);
  }

  /** The first entry of an interface is that of its first port. */
  lemma FirstEntryIsFirstShown(lines: seq<Line>, name: string, k: nat) returns (i: nat, p: nat)
    requires Table(Process, lines, |lines|).Ok? && IsFirst(Table(Process, lines, |lines|).value, name, k)
    ensures FirstShown(lines, name, i, p) && k == Offset(lines, i) + p
  {
    TableLength(Process, lines, |lines|);
    i, p := PlaceOf(lines, |lines|, k);
    EntryAt(lines, i, p);
    forall j: nat, q: nat | Before(j, q, i, p) && At(lines, j, q)
      ensures ShownAt(lines, j, q) != name
    {
      PlacesInOrder(lines, j, q, i, p);
      EntryAt(lines, j, q);
    }
  }

  /** The line's address, and the number of its VLAN. */
  predicate Tells(f: Fields, answer: MacOnVlan) {
    && answer.mac == f.mac
    && (if ForAllVlans(f) then answer.vlan == 0 else IsNumeral(f.vlan) && answer.vlan == ParseNat(f.vlan))
  }

  /** An answer of the lookup: the address and the VLAN of the line that shows the interface first. */
  ghost predicate Answers(lines: seq<Line>, name: string, answer: MacOnVlan) {
    exists i: nat, p: nat :: FirstShown(lines, name, i, p) && Tells(FieldsOf(lines, i), answer)
  }

  lemma FirstEntryAnswers(lines: seq<Line>, name: string, k: nat)
    requires Table(Process, lines, |lines|).Ok? && IsFirst(Table(Process, lines, |lines|).value, name, k)
    ensures var e := Table(Process, lines, |lines|).value[k]; Answers(lines, name, MacOnVlan(e.mac, e.vlan))
  {
    var i, p := FirstEntryIsFirstShown(lines, name, k);
    EntryAt(lines, i, p);
  }

  lemma NoneShown(lines: seq<Line>, name: string)
    requires Table(Process, lines, |lines|).Ok?
    requires var table := Table(Process, lines, |lines|).value;
             forall k | 0 <= k < |table| :: table[k].interface != name
    ensures forall i: nat, p: nat | At(lines, i, p) :: ShownAt(lines, i, p) != name
  {
    forall i: nat, p: nat | At(lines, i, p)
      ensures ShownAt(lines, i, p) != name
    {
      EntryAt(lines, i, p);
    }
  }

  /** The line is unexpected, or lists a port and has a vlan text, its own or filled down, that is neither a
      number nor the "all" of a static row. */
  predicate BadLine(lines: seq<Line>, i: nat)
    requires i < |lines|
  {
    var f := FieldsOf(lines, i);
    lines[i].Unexpected? || (PortsOf(lines[i]) != [] && !IsNumeral(f.vlan) && !ForAllVlans(f))
  }

  /** The lookup raises exactly on a table with such a line. */
  lemma LookupRaises(lines: seq<Line>)
    ensures Table(Process, lines, |lines|).Raised? <==> exists i | 0 <= i < |lines| :: BadLine(lines, i)
  {
    TableRaises(Process, lines, |lines|);
    forall i | 0 <= i < |lines|
      ensures Expansion(Process, lines, i).Raised? <==> BadLine(lines, i)
    {
      ExpansionRaises(Process, lines, i);
      forall p | 0 <= p < |PortsOf(lines[i])| {
        EntryExactly(FieldsOf(lines, i), PortsOf(lines[i])[p]);
      }
      if PortsOf(lines[i]) != [] {
        EntryExactly(FieldsOf(lines, i), PortsOf(lines[i])[0]);
      }
    }
  }

  /** Text without the letter G holds no long interface name. */
  lemma {:induction false} ReplaceNothing(s: string, old': string, new': string)
    requires old' != "" && old'[0] !in s
    ensures Replace(s, old', new') == s
  {
    if |s| >= |old'| {
      assert s[0] in s;
      ReplaceNothing(s[1..], old', new');
    }
  }

  lemma ReplaceSkips(s: string, old': string, new': string)
    requires s != "" && old' != "" && !(old' <= s)
    ensures Replace(s, old', new') == [s[0]] + Replace(s[1..], old', new')
  {
    if |s| < |old'| {
      assert Replace(s[1..], old', new') == s[1..];
    }
  }

  lemma ReplaceHead(unit: string, old': string, new': string)
    requires old' != "" && old'[0] !in unit
    ensures Replace(old' + unit, old', new') == new' + unit
  {
    ReplaceNothing(unit, old', new');
    assert (old' + unit)[|old'|..] == unit;
  }

  /** The code rewrites the short prefix first, so a ten-gigabit name becomes "TenGi...", never the
      "Ti..." of its second rewrite. */
  lemma TenGigabitNamesKeepTheirTen(unit: string)
    requires 'G' !in unit && 'T' !in unit && 'g' !in unit
    ensures Abbreviated("GigabitEthernet" + unit) == "Gi" + unit
    ensures Abbreviated("TenGigabitEthernet" + unit) == "TenGi" + unit
  {
    FirstRewrite(unit);
    ReplaceNothing("Gi" + unit, "TenGigabitEthernet", "Ti");
    SecondRewriteIsIdle(unit);
  }

  lemma FirstRewrite(unit: string)
    requires 'G' !in unit
    ensures Replace("GigabitEthernet" + unit, "GigabitEthernet", "Gi") == "Gi" + unit
    ensures Replace("TenGigabitEthernet" + unit, "GigabitEthernet", "Gi") == "TenGi" + unit
  {
    ReplaceHead(unit, "GigabitEthernet", "Gi");
    ReplaceAfterTen("GigabitEthernet" + unit, "GigabitEthernet", "Gi");
    TenNames("GigabitEthernet", "Gi", unit);
    assert "Ten" + "GigabitEthernet" == "TenGigabitEthernet" && "Ten" + "Gi" == "TenGi";
  }

  lemma TenNames(long: string, short: string, unit: string)
    ensures "Ten" + (long + unit) == ("Ten" + long) + unit && "Ten" + (short + unit) == ("Ten" + short) + unit
  {
  }

  lemma SecondRewriteIsIdle(unit: string)
    requires 'T' !in unit && 'g' !in unit
    ensures Replace("TenGi" + unit, "TenGigabitEthernet", "Ti") == "TenGi" + unit
  {
    var name, long := "TenGi" + unit, "TenGigabitEthernet";
    assert !(long <= name) by {
      if |name| > 5 {
        assert long[5] == 'g' && name[5] == unit[0] && unit[0] in unit;
      }
    }
    ReplaceSkips(name, long, "Ti");
    assert name[1..] == "enGi" + unit;
    ReplaceNothing(name[1..], long, "Ti");
  }

  lemma ReplaceAfterTen(s: string, old': string, new': string)
    requires old' != "" && old'[0] == 'G'
    ensures Replace("Ten" + s, old', new') == "Ten" + Replace(s, old', new')
  {
    ReplaceSkips("Ten" + s, old', new');
    assert ("Ten" + s)[1..] == "en" + s;
    ReplaceSkips("en" + s, old', new');
    assert ("en" + s)[1..] == "n" + s;
    ReplaceSkips("n" + s, old', new');
    assert ("n" + s)[1..] == s;
  }
}
