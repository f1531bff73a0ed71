/**
 The three expanders of VLAN member lists such as ["1", "51-60"]: the drivers' validator
 (strings, silently skipping names), the plugin (integers) and Junos' hyphen_range (one comma list).
 */
module VlanRange {
  import opened Prelude
  import opened Text

  datatype ParseError = ValueError | MalformedRange

  /** `range(lo, end)`. */
  function Span(lo: nat, end: nat): seq<nat> {
    if lo < end then Span(lo, end - 1) + [end - 1] else []
  }

  /** `int(parts[0])` and `int(parts[1])` of a hyphenated member; further parts are ignored. */
  function Bounds(member: string): Result<(nat, nat), ParseError>
    requires '-' in member
  {
    var parts := Split(member, '-');
    match (ParseInt(parts[0]), ParseInt(parts[1]))
    case (Some(lo), Some(hi)) => Ok((lo, hi))
    case _ => Raised(ValueError)
  }

  function Decimals(ns: seq<nat>): (r: seq<string>)
    ensures |r| == |ns| && forall i | 0 <= i < |ns| :: r[i] == Decimal(ns[i])
  {
    seq(|ns|, i requires 0 <= i < |ns| => Decimal(ns[i]))
  }

  /** What one member contributes, per expander. */
  function ValidatorMember(member: string): Result<seq<string>, ParseError> {
    if IsNumeral(member) then Ok([member])
    else if '-' in member then
      match Bounds(member)
      case Ok((lo, hi)) => Ok(Decimals(Span(lo, hi + 1)))
      case Raised(e) => Raised(e)
    else Ok([])
  }

  function PluginMember(member: string): Result<seq<nat>, ParseError> {
    if '-' in member then
      match Bounds(member)
      case Ok((lo, hi)) => Ok(Span(lo, hi + 1))
      case Raised(e) => Raised(e)
    else
      match ParseInt(member)
      case Some(n) => Ok([n])
      case None => Raised(ValueError)
  }

  function HyphenMember(member: string): Result<seq<nat>, ParseError> {
    var parts := Split(member, '-');
    if |parts| > 2 then Raised(MalformedRange) else PluginMember(member)
  }

  /** The contributions in order, or the first exception. */
  function Collect<T>(f: string -> Result<seq<T>, ParseError>, members: seq<string>): Result<seq<T>, ParseError> {
    if members == [] then Ok([])
    else
      match Collect(f, members[..|members| - 1])
      case Raised(e) => Raised(e)
      case Ok(xs) =>
        match f(members[|members| - 1])
        case Raised(e) => Raised(e)
        case Ok(ys) => Ok(xs + ys)
  }

  lemma {:induction false} CollectStops<T>(f: string -> Result<seq<T>, ParseError>, members: seq<string>, n: nat)
    requires n <= |members| && Collect(f, members[..n]).Raised?
    ensures Collect(f, members) == Collect(f, members[..n])
    decreases |members|
  {
    if n == |members| {
      assert members[..n] == members;
    } else {
      assert members[..|members| - 1][..n] == members[..n];
      CollectStops(f, members[..|members| - 1], n);
    }
  }

  /** It raises exactly if some member does. */
  lemma {:induction false} CollectRaises<T>(f: string -> Result<seq<T>, ParseError>, members: seq<string>)
    ensures Collect(f, members).Raised? <==> exists m | m in members :: f(m).Raised?
  {
    if members != [] {
      var n := |members| - 1;
      assert members == members[..n] + [members[n]];
      CollectRaises(f, members[..n]);
    }
  }

  lemma CollectStep<T>(f: string -> Result<seq<T>, ParseError>, members: seq<string>, n: nat, xs: seq<T>)
    requires n < |members| && Collect(f, members[..n]) == Ok(xs)
    ensures f(members[n]).Raised? ==> Collect(f, members) == Raised(f(members[n]).error)
    ensures f(members[n]).Ok? ==> Collect(f, members[..n + 1]) == Ok(xs + f(members[n]).value)
  {
    assert members[..n + 1][..n] == members[..n];
    if f(members[n]).Raised? {
      CollectStops(f, members, n + 1);
    }
  }

  /** `_parse_vlan_range` of the drivers' validator. */
  method ParseForValidator(members: seq<string>) returns (r: Result<seq<string>, ParseError>)
    ensures r == Collect(ValidatorMember, members)
  {
    var all: seq<string> := [];
    for n := 0 to |members|
      invariant Collect(ValidatorMember, members[..n]) == Ok(all)
    {
      var member := members[n];
      CollectStep(ValidatorMember, members, n, all);
      assert all + [] == all;
      if IsNumeral(member) {
        all := all + [member];
      } else if '-' in member {
        match Bounds(member) {
          case Raised(e) => return Raised(e);
          case Ok((lo, hi)) => all := AppendDecimals(all, lo, hi);
        }
      }
    }
    assert members[..|members|] == members;
    return Ok(all);
  }

  /** `_parse_vlan_range` of the plugin. */
  method ParseForPlugin(members: seq<string>) returns (r: Result<seq<nat>, ParseError>)
    ensures r == Collect(PluginMember, members)
  {
    var all: seq<nat> := [];
    for n := 0 to |members|
      invariant Collect(PluginMember, members[..n]) == Ok(all)
    {
      var member := members[n];
      CollectStep(PluginMember, members, n, all);
      if '-' in member {
        match Bounds(member) {
          case Raised(e) => return Raised(e);
          case Ok((lo, hi)) => all := AppendSpan(all, lo, hi);
        }
      } else {
        match ParseInt(member) {
          case None => return Raised(ValueError);
          case Some(value) => all := all + [value];
        }
      }
    }
    assert members[..|members|] == members;
    return Ok(all);
  }

  /** The inner loop of the validator. */
  method AppendDecimals(all: seq<string>, lo: nat, hi: nat) returns (r: seq<string>)
    ensures r == all + Decimals(Span(lo, hi + 1))
  {
    r := all;
    var i := lo;
    while i < hi + 1
      invariant lo <= i && (i <= hi + 1 || i == lo)
      invariant r == all + Decimals(Span(lo, i))
    {
      assert Decimals(Span(lo, i + 1)) == Decimals(Span(lo, i)) + [Decimal(i)];
      r := r + [Decimal(i)];
      i := i + 1;
    }
    assert Span(lo, i) == Span(lo, hi + 1);
  }

  /** The inner loop of both integer expanders. */
  method AppendSpan(all: seq<nat>, lo: nat, hi: nat) returns (r: seq<nat>)
    ensures r == all + Span(lo, hi + 1)
  {
    r := all;
    var i := lo;
    while i < hi + 1
      invariant lo <= i && (i <= hi + 1 || i == lo)
      invariant r == all + Span(lo, i)
    {
      r := r + [i];
      i := i + 1;
    }
    assert Span(lo, i) == Span(lo, hi + 1);
  }

  /** `hyphen_range`. */
  method HyphenRange(text: string) returns (r: Result<seq<nat>, ParseError>)
    ensures r == Collect(HyphenMember, Split(text, ','))
  {
    var elements := Split(text, ',');
    var numbers: seq<nat> := [];
    for n := 0 to |elements|
      invariant Collect(HyphenMember, elements[..n]) == Ok(numbers)
    {
      CollectStep(HyphenMember, elements, n, numbers);
      var parts := Split(elements[n], '-');
      SplitSingle(elements[n], '-');
      if |parts| == 1 {
        match ParseInt(parts[0]) {
          case None => return Raised(ValueError);
          case Some(value) => numbers := numbers + [value];
        }
      } else if |parts| == 2 {
        match Bounds(elements[n]) {
          case Raised(e) => return Raised(e);
          case Ok((lo, hi)) => numbers := AppendSpan(numbers, lo, hi);
        }
      } else {
        return Raised(MalformedRange);
      }
    }
    assert elements[..|elements|] == elements;
    return Ok(numbers);
  }

  lemma SplitSingle(s: string, sep: char)
    ensures |Split(s, sep)| == 1 <==> sep !in s
    ensures sep !in s ==> Split(s, sep) == [s]
  {
    if sep !in s {
      SplitWithoutSeparator(s, sep);
    }
  }

  /** A second hyphen is a malformed range to `hyphen_range`; the other two expanders read on past it. */
  lemma SecondHyphen(low: string, high: string, rest: string)
    requires '-' !in low && '-' !in high
    ensures var member := low + ['-'] + high + ['-'] + rest;
            && HyphenMember(member) == Raised(MalformedRange)
            && PluginMember(member) == PluginMember(low + ['-'] + high)
  {
    var tail := high + ['-'] + rest;
    assert low + ['-'] + high + ['-'] + rest == low + ['-'] + tail;
    SplitAtSeparator(low, '-', tail);
    SplitAtSeparator(high, '-', rest);
    SplitAtSeparator(low, '-', high);
    SplitWithoutSeparator(high, '-');
    assert (low + ['-'] + tail)[|low|] == '-' && (low + ['-'] + high)[|low|] == '-';
  }

  // ----- canonical members

  /** A canonical member: one tag, or an inclusive range (empty when lo > hi). */
  datatype Member = One(tag: nat) | Range(lo: nat, hi: nat)

  function Render(m: Member): string {
    match m
    case One(tag) => Decimal(tag)
    case Range(lo, hi) => Decimal(lo) + ['-'] + Decimal(hi)
  }

  function RenderAll(ms: seq<Member>): (r: seq<string>)
    ensures |r| == |ms| && forall i | 0 <= i < |ms| :: r[i] == Render(ms[i])
  {
    seq(|ms|, i requires 0 <= i < |ms| => Render(ms[i]))
  }

  predicate Covers(m: Member, x: nat) {
    match m
    case One(tag) => x == tag
    case Range(lo, hi) => lo <= x <= hi
  }

  function SizeOf(m: Member): nat {
    match m
    case One(_) => 1
    case Range(lo, hi) => if lo <= hi then hi - lo + 1 else 0
  }

  function TotalSize(ms: seq<Member>): nat {
    if ms == [] then 0 else TotalSize(ms[..|ms| - 1]) + SizeOf(ms[|ms| - 1])
  }

  function NumbersOf(m: Member): seq<nat> {
    match m
    case One(tag) => [tag]
    case Range(lo, hi) => Span(lo, hi + 1)
  }

  function DecimalsOf(m: Member): seq<string> {
    Decimals(NumbersOf(m))
  }

  function Concat<T>(g: Member -> seq<T>, ms: seq<Member>): seq<T> {
    if ms == [] then [] else Concat(g, ms[..|ms| - 1]) + g(ms[|ms| - 1])
  }

  function Numbers(ms: seq<Member>): seq<nat> {
    Concat(NumbersOf, ms)
  }

  lemma {:induction false} SpanElements(lo: nat, end: nat)
    ensures |Span(lo, end)| == if lo < end then end - lo else 0
    ensures forall i | 0 <= i < |Span(lo, end)| :: Span(lo, end)[i] == lo + i
  {
    if lo < end {
      SpanElements(lo, end - 1);
    }
  }

  lemma SpanCovers(lo: nat, end: nat, x: nat)
    ensures x in Span(lo, end) <==> lo <= x < end
  {
    SpanElements(lo, end);
    if lo <= x < end {
      assert Span(lo, end)[x - lo] == x;
    }
  }

  lemma NumeralHasNoSeparator(n: nat)
    ensures '-' !in Decimal(n) && ',' !in Decimal(n)
  {
  }

  lemma RenderedRange(lo: nat, hi: nat)
    ensures '-' in Render(Range(lo, hi)) && ',' !in Render(Range(lo, hi))
    ensures Split(Render(Range(lo, hi)), '-') == [Decimal(lo), Decimal(hi)]
    ensures Bounds(Render(Range(lo, hi))) == Ok((lo, hi))
  {
    NumeralHasNoSeparator(lo);
    NumeralHasNoSeparator(hi);
    SplitAtSeparator(Decimal(lo), '-', Decimal(hi));
    SplitWithoutSeparator(Decimal(hi), '-');
    ParseDecimal(lo);
    ParseDecimal(hi);
    assert Render(Range(lo, hi))[|Decimal(lo)|] == '-';
  }

  /** A rendered member means the same to all three expanders. */
  lemma RenderedMember(m: Member)
    ensures PluginMember(Render(m)) == Ok(NumbersOf(m))
    ensures HyphenMember(Render(m)) == Ok(NumbersOf(m))
    ensures ValidatorMember(Render(m)) == Ok(DecimalsOf(m))
    ensures ',' !in Render(m)
  {
    match m {
      case One(tag) =>
        NumeralHasNoSeparator(tag);
        SplitWithoutSeparator(Decimal(tag), '-');
        ParseDecimal(tag);
        assert Decimals([tag]) == [Decimal(tag)];
      case Range(lo, hi) =>
        RenderedRange(lo, hi);
        assert !IsDigit('-');
    }
  }

  lemma {:induction false} CollectRendered<T>(f: string -> Result<seq<T>, ParseError>, g: Member -> seq<T>,
      ms: seq<Member>)
    requires forall m :: f(Render(m)) == Ok(g(m))
    ensures Collect(f, RenderAll(ms)) == Ok(Concat(g, ms))
  {
    if ms != [] {
      CollectRendered(f, g, ms[..|ms| - 1]);
      assert RenderAll(ms)[..|ms| - 1] == RenderAll(ms[..|ms| - 1]);
    }
  }

  lemma {:induction false} ConcatDecimals(ms: seq<Member>)
    ensures Concat(DecimalsOf, ms) == Decimals(Numbers(ms))
  {
    if ms != [] {
      ConcatDecimals(ms[..|ms| - 1]);
    }
  }

  /** On canonical members the plugin, the validator and hyphen_range of the comma-joined list
      compute the same sequence; hyphen_range alone rejects the empty list. */
  lemma ExpandersAgree(ms: seq<Member>)
    ensures Collect(PluginMember, RenderAll(ms)) == Ok(Numbers(ms))
    ensures Collect(ValidatorMember, RenderAll(ms)) == Ok(Decimals(Numbers(ms)))
    ensures Collect(HyphenMember, Split(Join(RenderAll(ms), ','), ','))
            == if ms == [] then Raised(ValueError) else Ok(Numbers(ms))
  {
    forall m: Member
      ensures PluginMember(Render(m)) == Ok(NumbersOf(m))
      ensures HyphenMember(Render(m)) == Ok(NumbersOf(m))
      ensures ValidatorMember(Render(m)) == Ok(DecimalsOf(m))
      ensures ',' !in Render(m)
    {
      RenderedMember(m);
    }
    CollectRendered(PluginMember, NumbersOf, ms);
    CollectRendered(HyphenMember, NumbersOf, ms);
    CollectRendered(ValidatorMember, DecimalsOf, ms);
    ConcatDecimals(ms);
    SplitOfJoin(RenderAll(ms), ',');
    if ms == [] {
      assert Split("", ',') == [""] && [""][..0] == [];
      assert HyphenMember("") == Raised(ValueError);
    }
  }

  /** The common sequence denotes exactly the union of the members, and is as long as their sizes add up to. */
  lemma {:induction false} NumbersDenoteUnion(ms: seq<Member>, x: nat)
    ensures x in Numbers(ms) <==> exists i :: 0 <= i < |ms| && Covers(ms[i], x)
    ensures |Numbers(ms)| == TotalSize(ms)
  {
    if ms != [] {
      var init, last := ms[..|ms| - 1], ms[|ms| - 1];
      NumbersDenoteUnion(init, x);
      if last.Range? {
        SpanCovers(last.lo, last.hi + 1, x);
        SpanElements(last.lo, last.hi + 1);
      }
      assert x in Numbers(ms) <==> x in Numbers(init) || Covers(last, x);
      assert forall i | 0 <= i < |init| :: init[i] == ms[i];
    }
  }

  // ----- what a member denotes, whatever an expander makes of it

  /** A VLAN on a port: known by its tag, or only by a name. */
  datatype Vlan = Tag(number: nat) | Name(text: string)

  /** Two numerals around one hyphen. */
  predicate IsRange(member: string) {
    var parts := Split(member, '-');
    |parts| == 2 && IsNumeral(parts[0]) && IsNumeral(parts[1])
  }

  /** A member the expanders can read: a numeral or a well-formed range. */
  predicate Plain(member: string) {
    IsNumeral(member) || IsRange(member)
  }

  function Tags(numbers: set<nat>): set<Vlan> {
    set n | n in numbers :: Tag(n)
  }

  function Denotes(member: string): set<Vlan> {
    if IsNumeral(member) then {Tag(ParseNat(member))}
    else if IsRange(member) then
      var parts := Split(member, '-');
      set n: nat | ParseNat(parts[0]) <= n <= ParseNat(parts[1]) :: Tag(n)
    else {Name(member)}
  }

  function DenotesAll(members: seq<string>): set<Vlan> {
    set m, v | m in members && v in Denotes(m) :: v
  }

  /** The tags of numeral texts. */
  function TagsOf(texts: seq<string>): set<Vlan> {
    set x | x in texts && IsNumeral(x) :: Tag(ParseNat(x))
  }

  lemma RangeHasHyphen(member: string)
    requires IsRange(member)
    ensures '-' in member && !IsNumeral(member)
  {
    SplitSingle(member, '-');
    assert !IsDigit('-');
  }

  lemma DecimalsOfSpan(lo: nat, hi: nat)
    ensures forall x | x in Decimals(Span(lo, hi + 1)) :: IsNumeral(x)
    ensures TagsOf(Decimals(Span(lo, hi + 1))) == set n: nat | lo <= n <= hi :: Tag(n)
  {
    var span := Span(lo, hi + 1);
    forall n: nat | lo <= n <= hi
      ensures Tag(n) in TagsOf(Decimals(span))
    {
      SpanElements(lo, hi + 1);
      ParseDecimal(n);
      assert Decimals(span)[n - lo] == Decimal(n);
    }
    forall x | x in Decimals(span)
      ensures IsNumeral(x) && lo <= ParseNat(x) <= hi
    {
      var i :| 0 <= i < |span| && Decimals(span)[i] == x;
      ParseDecimal(span[i]);
      SpanCovers(lo, hi + 1, span[i]);
    }
  }

  /** The validator expands a plain member to numerals for exactly the VLANs it denotes. */
  lemma PlainMemberExpands(member: string)
    requires Plain(member)
    ensures ValidatorMember(member).Ok? && forall x | x in ValidatorMember(member).value :: IsNumeral(x)
    ensures Denotes(member) == TagsOf(ValidatorMember(member).value)
  {
    if IsNumeral(member) {
      assert ValidatorMember(member) == Ok([member]);
    } else {
      RangeHasHyphen(member);
      var parts := Split(member, '-');
      DecimalsOfSpan(ParseNat(parts[0]), ParseNat(parts[1]));
    }
  }

  lemma {:induction false} PlainMembersExpand(members: seq<string>)
    requires forall m | m in members :: Plain(m)
    ensures Collect(ValidatorMember, members).Ok?
    ensures forall x | x in Collect(ValidatorMember, members).value :: IsNumeral(x)
    ensures DenotesAll(members) == TagsOf(Collect(ValidatorMember, members).value)
  {
    if members != [] {
      var n := |members| - 1;
      assert members == members[..n] + [members[n]];
      PlainMembersExpand(members[..n]);
      PlainMemberExpands(members[n]);
      var init, last := Collect(ValidatorMember, members[..n]).value, ValidatorMember(members[n]).value;
      assert TagsOf(init + last) == TagsOf(init) + TagsOf(last);
      assert DenotesAll(members) == DenotesAll(members[..n]) + Denotes(members[n]);
    }
  }

  /** A member that is no number and no range denotes a VLAN that has no tag. */
  lemma NamesHaveNoTag(members: seq<string>, numbers: set<nat>)
    requires DenotesAll(members) == Tags(numbers)
    ensures forall m | m in members :: Plain(m)
  {
    assert forall v | v in Tags(numbers) :: v.Tag?;
    forall m | m in members
      ensures Plain(m) || Name(m) in DenotesAll(members)
    {
      if !Plain(m) {
        assert Name(m) in Denotes(m);
      }
    }
  }

  /** Canonical members, ranges included, are plain and denote the tags they cover. */
  lemma RenderedDenotes(ms: seq<Member>)
    ensures forall m | m in RenderAll(ms) :: Plain(m)
    ensures DenotesAll(RenderAll(ms)) == set n | n in Numbers(ms) :: Tag(n)
  {
    forall m | m in RenderAll(ms)
      ensures Plain(m)
    {
      var i :| 0 <= i < |ms| && Render(ms[i]) == m;
      RenderedIsPlain(ms[i]);
    }
    PlainMembersExpand(RenderAll(ms));
    ExpandersAgree(ms);
    TagsOfDecimals(Numbers(ms));
  }

  lemma RenderedIsPlain(m: Member)
    ensures Plain(Render(m))
  {
    if m.Range? {
      RenderedRange(m.lo, m.hi);
    }
  }

  lemma TagsOfDecimals(numbers: seq<nat>)
    ensures TagsOf(Decimals(numbers)) == set n | n in numbers :: Tag(n)
  {
    forall n | n in numbers
      ensures Tag(n) in TagsOf(Decimals(numbers))
    {
      var i :| 0 <= i < |numbers| && numbers[i] == n;
      ParseDecimal(n);
      assert Decimals(numbers)[i] == Decimal(n);
    }
    forall x | x in Decimals(numbers)
      ensures ParseNat(x) in numbers
    {
      var i :| 0 <= i < |numbers| && Decimals(numbers)[i] == x;
      ParseDecimal(numbers[i]);
    }
  }
}
