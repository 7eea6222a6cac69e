/** The scraper of the simulator's statistics dump: `extract_l1_cache_stats`
    and `extract_hostseconds` of programs/l1_cache_arm64.py.

    The dump file is an optional sequence of lines: `None` when the file does
    not exist. Python's `float()` is the parameter `parse`, a partial parser
    from a field to a number; every property below holds whatever it accepts. */
module Stats {
  import opened Options
  import opened Text

  /** One counter of the dump: its dotted name and its value. */
  datatype Entry = Entry(name: string, value: real)

  /** A Python dict from counter name to value. The entries are kept in the
      order their names were first inserted, the order `items()` yields them. */
  type Dict = seq<Entry>

  predicate UniqueNames(d: Dict)
  {
    forall a, b :: 0 <= a < b < |d| ==> d[a].name != d[b].name
  }

  function Names(d: Dict): seq<string>
  {
    seq(|d|, k requires 0 <= k < |d| => d[k].name)
  }

  lemma NamesCons(e: Entry, d: Dict)
    ensures Names([e] + d) == [e.name] + Names(d)
  {
  }

  /** `d.get(key)`: the value stored under `key`, if any. */
  function Get(d: Dict, key: string): (r: Option<real>)
    ensures r.None? <==> key !in Names(d)
    ensures UniqueNames(d) ==> forall k :: 0 <= k < |d| && d[k].name == key ==> r == Some(d[k].value)
  {
    if d == [] then None
    else
      assert d == [d[0]] + d[1..];
      NamesCons(d[0], d[1..]);
      if d[0].name == key then Some(d[0].value)
      else Get(d[1..], key)
  }

  /** `d[key] = value`: a new name goes to the end, a known name keeps its
      place and takes the new value, and no other name changes. */
  function Put(d: Dict, key: string, value: real): (r: Dict)
    ensures Names(r) == if key in Names(d) then Names(d) else Names(d) + [key]
    ensures forall other :: Get(r, other) == if other == key then Some(value) else Get(d, other)
  {
    if d == [] then [Entry(key, value)]
    else
      assert d == [d[0]] + d[1..];
      NamesCons(d[0], d[1..]);
      if d[0].name == key then
        NamesCons(Entry(key, value), d[1..]);
        GetCons(Entry(key, value), d[1..]);
        GetCons(d[0], d[1..]);
        [Entry(key, value)] + d[1..]
      else
        var rest := Put(d[1..], key, value);
        NamesCons(d[0], rest);
        GetCons(d[0], rest);
        GetCons(d[0], d[1..]);
        [d[0]] + rest
  }

  /** Looking up in a dict whose first entry is `e`. */
  lemma GetCons(e: Entry, d: Dict)
    ensures forall key :: Get([e] + d, key) == if e.name == key then Some(e.value) else Get(d, key)
  {
    assert ([e] + d)[1..] == d;
  }

  /** Assigning into a dict never makes a name appear twice. */
  lemma PutKeepsUnique(d: Dict, key: string, value: real)
    requires UniqueNames(d)
    ensures UniqueNames(Put(d, key, value))
  {
    var r := Put(d, key, value);
    assert forall a :: 0 <= a < |r| ==> r[a].name == Names(r)[a];
    assert forall a :: 0 <= a < |d| ==> d[a].name == Names(d)[a];
  }

  /** What one line of the dump yields after `strip()`, the blank and `#`
      comment tests, `split()` and `float()` of the second field: the first
      field as the name and the parsed second field as the value. Lines with
      fewer than two fields or an unparsable second field yield nothing. */
  function ParseRow(line: string, parse: string -> Option<real>): (r: Option<Entry>)
    ensures r.Some? <==>
      && Strip(line) != [] && !StartsWith(Strip(line), "#")
      && |Split(Strip(line))| >= 2 && parse(Split(Strip(line))[1]).Some?
    ensures r.Some? ==>
      && r.value.name == Split(Strip(line))[0] && IsWord(r.value.name) && r.value.name[0] != '#'
      && Some(r.value.value) == parse(Split(Strip(line))[1])
  {
    var t := Strip(line);
    if t == [] || StartsWith(t, "#") then None
    else
      var parts := Split(t);
      if |parts| < 2 then None
      else
        SplitYieldsWords(t);
        SplitFirstField(t);
        match parse(parts[1])
        case None => None
        case Some(v) => Some(Entry(parts[0], v))
  }

  /** A line of the dump as the simulator writes it: optional leading
      whitespace `lead`, the counter's `name`, whitespace `sep`, the value's
      text `field`, and a `rest` that is empty or starts with whitespace, such
      as the `# description` column or the line break. */
  ghost predicate DumpLine(lead: string, name: string, sep: string, field: string, rest: string)
  {
    && AllSpace(lead) && IsWord(name) && name[0] != '#'
    && sep != [] && AllSpace(sep) && IsWord(field)
    && (rest == [] || IsSpace(rest[0]))
  }

  /** `strip()` of a dump line keeps its name, separator and value, and a part
      of the rest that is empty or starts with whitespace. */
  lemma StripOfRow(lead: string, name: string, sep: string, field: string, rest: string) returns (tail: string)
    requires DumpLine(lead, name, sep, field, rest)
    ensures Strip(lead + name + sep + field + rest) == name + sep + field + tail
    ensures tail == [] || IsSpace(tail[0])
  {
    var p := name + sep + field;
    StripRowFront(lead, name, sep, field, rest);
    assert p[|p| - 1] == field[|field| - 1];
    var n := TrimEndAfter(p, rest);
    tail := rest[..n];
    assert tail != [] ==> tail[0] == rest[0];
  }

  /** `strip()` of a dump line removes exactly its leading whitespace at the
      front. */
  lemma StripRowFront(lead: string, name: string, sep: string, field: string, rest: string)
    requires AllSpace(lead) && IsWord(name)
    ensures Strip(lead + name + sep + field + rest) == TrimEnd(name + sep + field + rest)
  {
    var u := name + sep + field + rest;
    assert lead + name + sep + field + rest == lead + u;
    assert u[0] == name[0];
    StripAfterSpace(lead, u);
  }

  lemma Regroup(a: string, b: string, c: string, d: string)
    ensures a + b + c + d == a + (b + c + d)
  {
  }

  /** A dump line is read back as exactly its counter, with the parsed value:
      the format the dump is written in is understood. */
  lemma RowRoundTrip(lead: string, name: string, sep: string, field: string, rest: string,
                     parse: string -> Option<real>, v: real)
    requires DumpLine(lead, name, sep, field, rest) && parse(field) == Some(v)
    ensures ParseRow(lead + name + sep + field + rest, parse) == Some(Entry(name, v))
  {
    var tail := StripOfRow(lead, name, sep, field, rest);
    var t := name + sep + field + tail;
    assert t[0] == name[0];
    StartsWithChar(t, '#');
    SplitLeading(name, sep, field, tail);
  }

  /** A line that holds a single word, such as `foo::bar`, has fewer than two
      fields and yields no row, hence no counter and no host time. */
  lemma OneFieldNoRow(lead: string, w: string, tail: string, parse: string -> Option<real>)
    requires AllSpace(lead) && IsWord(w) && AllSpace(tail)
    ensures ParseRow(lead + w + tail, parse).None?
  {
    StripOneWord(lead, w, tail);
    SplitWord(w);
  }

  /** The converse of `RowRoundTrip`: every line that yields a row is a dump
      line of the row's name and a value text that parses to the row's value. */
  lemma RowShape(line: string, parse: string -> Option<real>)
    returns (lead: string, sep: string, field: string, rest: string)
    requires ParseRow(line, parse).Some?
    ensures DumpLine(lead, ParseRow(line, parse).value.name, sep, field, rest)
    ensures line == lead + ParseRow(line, parse).value.name + sep + field + rest
    ensures parse(field) == Some(ParseRow(line, parse).value.value)
  {
    var t := Strip(line);
    var a :| StrippedAt(line, t, a);
    var lead0, tail0;
    lead0, sep, tail0 := SplitTwoFields(t);
    SplitYieldsWords(t);
    field := Split(t)[1];
    var pre, post := line[..a], line[a + |t|..];
    lead, rest := pre + lead0, tail0 + post;
    AllSpaceConcat(pre, lead0);
    RestStartsWithSpace(tail0, post);
    StrippedParts(line, t, a);
    Regroup5(pre, lead0, Split(t)[0], sep, field, tail0, post);
  }

  /** What follows the second field of the stripped line, and then what
      `strip()` cut off at the end, is empty or starts with whitespace. */
  lemma RestStartsWithSpace(tail0: string, post: string)
    requires tail0 == [] || IsSpace(tail0[0])
    requires AllSpace(post)
    ensures var rest := tail0 + post; rest == [] || IsSpace(rest[0])
  {
    if tail0 == [] {
      assert tail0 + post == post;
    } else {
      assert (tail0 + post)[0] == tail0[0];
    }
  }

  /** A line is what `strip()` cut off at the front, the stripped line, and what
      it cut off at the end. */
  lemma StrippedParts(line: string, t: string, a: int)
    requires StrippedAt(line, t, a)
    ensures line == line[..a] + t + line[a + |t|..]
  {
    assert line == line[..a] + line[a..a + |t|] + line[a + |t|..];
  }

  lemma Regroup5(pre: string, lead0: string, name: string, sep: string, field: string,
                 tail0: string, post: string)
    ensures pre + (lead0 + name + sep + field + tail0) + post
         == (pre + lead0) + name + sep + field + (tail0 + post)
  {
  }

  const Namespaces: seq<string> := ["system.cpu.icache", "system.cpu.dcache"]

  const Keywords: seq<string> :=
    ["overallHits", "overallMisses", "overallAccesses", "demandHits", "demandMisses", "demandAccesses"]

  predicate ContainsAny(s: string, subs: seq<string>)
  {
    exists k :: 0 <= k < |subs| && Contains(s, subs[k])
  }

  /** A counter `extract_l1_cache_stats` keeps: in the instruction- or
      data-cache namespace, and naming one of the six hit, miss and access
      totals. */
  predicate IsL1Counter(name: string)
    ensures IsL1Counter(name) <==>
      && (exists k, i :: 0 <= k < |Namespaces| && OccursAt(name, Namespaces[k], i))
      && (exists k, i :: 0 <= k < |Keywords| && OccursAt(name, Keywords[k], i))
  {
    ContainsAnyIff(name, Namespaces);
    ContainsAnyIff(name, Keywords);
    ContainsAny(name, Namespaces) && ContainsAny(name, Keywords)
  }

  /** `any(sub in s for sub in subs)` holds exactly when one of `subs` occurs
      in `s` at some position. */
  lemma ContainsAnyIff(s: string, subs: seq<string>)
    ensures ContainsAny(s, subs) <==> exists k, i :: 0 <= k < |subs| && OccursAt(s, subs[k], i)
  {
    forall k | 0 <= k < |subs|
      ensures Contains(s, subs[k]) <==> exists i :: OccursAt(s, subs[k], i)
    {
      ContainsIff(s, subs[k]);
    }
  }

  /** The counter one line contributes to the L1 statistics, if any: a parsed
      row of a line holding `::` whose name is an L1 counter. */
  function L1Row(line: string, parse: string -> Option<real>): (r: Option<Entry>)
    ensures r.Some? ==> IsL1Counter(r.value.name) && IsWord(r.value.name)
    ensures r.Some? ==> Contains(Strip(line), "::") && ParseRow(line, parse) == r
    ensures Contains(Strip(line), "::") && ParseRow(line, parse).Some? && IsL1Counter(ParseRow(line, parse).value.name)
      ==> r == ParseRow(line, parse)
  {
    if !Contains(Strip(line), "::") then None
    else
      match ParseRow(line, parse)
      case None => None
      case Some(e) => if IsL1Counter(e.name) then Some(e) else None
  }

  /** `sub in a` stays true when more text follows `a`. */
  lemma ContainsInPrefix(a: string, b: string, sub: string)
    requires Contains(a, sub)
    ensures Contains(a + b, sub)
  {
    ContainsIff(a, sub);
    var k :| OccursAt(a, sub, k);
    assert (a + b)[k..k + |sub|] == a[k..k + |sub|];
    assert OccursAt(a + b, sub, k);
    ContainsIff(a + b, sub);
  }

  /** A dump line of an L1 counter whose name holds `::` is kept with its
      parsed value. */
  lemma L1RowAccepts(lead: string, name: string, sep: string, field: string, rest: string,
                     parse: string -> Option<real>, v: real)
    requires DumpLine(lead, name, sep, field, rest) && parse(field) == Some(v)
    requires Contains(name, "::") && IsL1Counter(name)
    ensures L1Row(lead + name + sep + field + rest, parse) == Some(Entry(name, v))
  {
    var line := lead + name + sep + field + rest;
    assert ParseRow(line, parse) == Some(Entry(name, v)) by {
      RowRoundTrip(lead, name, sep, field, rest, parse, v);
    }
    assert Contains(Strip(line), "::") by {
      var tail := StripOfRow(lead, name, sep, field, rest);
      Regroup(name, sep, field, tail);
      ContainsInPrefix(name, sep + field + tail, "::");
    }
  }

  /** The counter each line of the dump contributes, line by line. */
  function L1Rows(lines: seq<string>, parse: string -> Option<real>): seq<Option<Entry>>
  {
    seq(|lines|, i requires 0 <= i < |lines| => L1Row(lines[i], parse))
  }

  predicate IsNamed(row: Option<Entry>, key: string)
  {
    row.Some? && row.value.name == key
  }

  ghost predicate SomeRowNamed(rows: seq<Option<Entry>>, key: string)
  {
    exists i :: 0 <= i < |rows| && IsNamed(rows[i], key)
  }

  /** The loop of `extract_l1_cache_stats`: each counter in `rows` assigned
      into an initially empty dict in turn. The names are unique, and a name is
      present exactly when some row carries it. */
  function Collect(rows: seq<Option<Entry>>): (d: Dict)
    ensures UniqueNames(d)
    ensures forall key :: Get(d, key).Some? <==> SomeRowNamed(rows, key)
    decreases |rows|
  {
    if rows == [] then []
    else
      var init := rows[..|rows| - 1];
      var d := Collect(init);
      SomeRowNamedSnoc(rows);
      match rows[|rows| - 1]
      case None => d
      case Some(e) =>
        PutKeepsUnique(d, e.name, e.value);
        Put(d, e.name, e.value)
  }

  lemma SomeRowNamedSnoc(rows: seq<Option<Entry>>)
    requires rows != []
    ensures forall key :: SomeRowNamed(rows, key) <==>
      SomeRowNamed(rows[..|rows| - 1], key) || IsNamed(rows[|rows| - 1], key)
  {
    var init := rows[..|rows| - 1];
    forall key
      ensures SomeRowNamed(rows, key) <==> SomeRowNamed(init, key) || IsNamed(rows[|rows| - 1], key)
    {
      if i :| 0 <= i < |rows| && IsNamed(rows[i], key) {
        if i < |init| {
          assert init[i] == rows[i];
        }
      }
      if i :| 0 <= i < |init| && IsNamed(init[i], key) {
        assert init[i] == rows[i];
      }
    }
  }

  /** A name carried by several rows keeps the value of the last of them. */
  lemma {:induction false} CollectLastWins(rows: seq<Option<Entry>>, i: int)
    requires 0 <= i < |rows| && rows[i].Some?
    requires forall j :: i < j < |rows| ==> !IsNamed(rows[j], rows[i].value.name)
    ensures Get(Collect(rows), rows[i].value.name) == Some(rows[i].value.value)
    decreases |rows|
  {
    if i < |rows| - 1 {
      var init := rows[..|rows| - 1];
      assert init[i] == rows[i];
      CollectLastWins(init, i);
    }
  }

  /** The first row that carries `key`. */
  ghost function FirstRow(rows: seq<Option<Entry>>, key: string): (i: nat)
    requires SomeRowNamed(rows, key)
    ensures i < |rows| && IsNamed(rows[i], key)
    ensures forall j :: 0 <= j < i ==> !IsNamed(rows[j], key)
    decreases |rows|
  {
    var k :| 0 <= k < |rows| && IsNamed(rows[k], key);
    if IsNamed(rows[0], key) then 0
    else
      assert IsNamed(rows[1..][k - 1], key);
      1 + FirstRow(rows[1..], key)
  }

  lemma FirstRowIs(rows: seq<Option<Entry>>, key: string, i: nat)
    requires i < |rows| && IsNamed(rows[i], key)
    requires forall j :: 0 <= j < i ==> !IsNamed(rows[j], key)
    ensures SomeRowNamed(rows, key) && FirstRow(rows, key) == i
  {
  }

  /** A row added at the end does not move where an earlier name first appears. */
  lemma FirstRowSnoc(rows: seq<Option<Entry>>, key: string)
    requires rows != [] && SomeRowNamed(rows[..|rows| - 1], key)
    ensures SomeRowNamed(rows, key) && FirstRow(rows, key) == FirstRow(rows[..|rows| - 1], key)
  {
    var init := rows[..|rows| - 1];
    var i := FirstRow(init, key);
    assert forall j :: 0 <= j <= i ==> init[j] == rows[j];
    FirstRowIs(rows, key, i);
  }

  /** A name no earlier row carries first appears in the last row. */
  lemma FirstRowLast(rows: seq<Option<Entry>>, key: string)
    requires rows != [] && IsNamed(rows[|rows| - 1], key) && !SomeRowNamed(rows[..|rows| - 1], key)
    ensures SomeRowNamed(rows, key) && FirstRow(rows, key) == |rows| - 1
  {
    var init := rows[..|rows| - 1];
    forall j | 0 <= j < |rows| - 1
      ensures !IsNamed(rows[j], key)
    {
      assert init[j] == rows[j];
    }
    FirstRowIs(rows, key, |rows| - 1);
  }

  /** One step of the loop of `extract_l1_cache_stats` either keeps the names
      of the dict or appends the new name of the last row. */
  lemma CollectSnocNames(rows: seq<Option<Entry>>)
    requires rows != []
    ensures var last := rows[|rows| - 1]; var d0 := Collect(rows[..|rows| - 1]);
      || Names(Collect(rows)) == Names(d0)
      || (last.Some? && !SomeRowNamed(rows[..|rows| - 1], last.value.name)
          && Names(Collect(rows)) == Names(d0) + [last.value.name])
  {
    var init := rows[..|rows| - 1];
    var d0 := Collect(init);
    match rows[|rows| - 1]
    case None =>
      assert Collect(rows) == d0;
    case Some(e) =>
      assert Collect(rows) == Put(d0, e.name, e.value);
      if e.name !in Names(d0) {
        assert !SomeRowNamed(init, e.name) by {
          assert Get(d0, e.name).None?;
        }
      }
  }

  /** One step of the loop keeps the names already in the dict at their
      positions and adds at most the last row's name, at the end, when no
      earlier row carries it. */
  lemma CollectSnoc(rows: seq<Option<Entry>>)
    requires rows != []
    ensures var d0 := Collect(rows[..|rows| - 1]); var d := Collect(rows);
      && |d0| <= |d| <= |d0| + 1
      && (forall a :: 0 <= a < |d0| ==> d[a].name == d0[a].name)
      && (|d0| < |d| ==>
            && rows[|rows| - 1].Some? && d[|d0|].name == rows[|rows| - 1].value.name
            && !SomeRowNamed(rows[..|rows| - 1], d[|d0|].name))
  {
    var d0 := Collect(rows[..|rows| - 1]);
    var d := Collect(rows);
    CollectSnocNames(rows);
    assert |Names(d)| == |d| && |Names(d0)| == |d0|;
    forall a | 0 <= a < |d0|
      ensures d[a].name == d0[a].name
    {
      assert Names(d)[a] == d[a].name;
      assert Names(d0)[a] == d0[a].name;
    }
    if |d0| < |d| {
      assert Names(d)[|d0|] == d[|d0|].name;
    }
  }

  /** Every name in the loop's dict is carried by some row. */
  lemma CollectNamesCarried(rows: seq<Option<Entry>>)
    ensures forall a :: 0 <= a < |Collect(rows)| ==> SomeRowNamed(rows, Collect(rows)[a].name)
  {
    var d := Collect(rows);
    forall a | 0 <= a < |d|
      ensures SomeRowNamed(rows, d[a].name)
    {
      assert Names(d)[a] == d[a].name;
    }
  }

  /** Every name of the loop's dict over `rows` is carried by some row, and the
      names stand in the order of the rows that first carry them. */
  ghost predicate FirstRowOrdered(rows: seq<Option<Entry>>)
  {
    var d := Collect(rows);
    && (forall a :: 0 <= a < |d| ==> SomeRowNamed(rows, d[a].name))
    && (forall a, b :: 0 <= a < b < |d| ==> FirstRow(rows, d[a].name) < FirstRow(rows, d[b].name))
  }

  /** The dict holds its names in the order of the rows that first carry them. */
  lemma {:induction false} CollectOrder(rows: seq<Option<Entry>>)
    ensures forall a :: 0 <= a < |Collect(rows)| ==> SomeRowNamed(rows, Collect(rows)[a].name)
    ensures forall a, b :: 0 <= a < b < |Collect(rows)| ==>
      FirstRow(rows, Collect(rows)[a].name) < FirstRow(rows, Collect(rows)[b].name)
    decreases |rows|
  {
    CollectNamesCarried(rows);
    if rows != [] {
      CollectOrder(rows[..|rows| - 1]);
      CollectOrderStep(rows);
    }
  }

  lemma CollectOrderStep(rows: seq<Option<Entry>>)
    requires rows != []
    requires FirstRowOrdered(rows[..|rows| - 1])
    ensures FirstRowOrdered(rows)
  {
    var d := Collect(rows);
    CollectNamesCarried(rows);
    forall a, b | 0 <= a < b < |d|
      ensures FirstRow(rows, d[a].name) < FirstRow(rows, d[b].name)
    {
      CollectOrderPair(rows, a, b);
    }
  }

  /** Two names of the dict after one more row keep their order. */
  lemma CollectOrderPair(rows: seq<Option<Entry>>, a: int, b: int)
    requires rows != [] && FirstRowOrdered(rows[..|rows| - 1])
    requires 0 <= a < b < |Collect(rows)|
    ensures SomeRowNamed(rows, Collect(rows)[a].name) && SomeRowNamed(rows, Collect(rows)[b].name)
    ensures FirstRow(rows, Collect(rows)[a].name) < FirstRow(rows, Collect(rows)[b].name)
  {
    var d0 := Collect(rows[..|rows| - 1]);
    CollectSnoc(rows);
    if b < |d0| {
      CollectOrderOld(rows, a, b);
    } else {
      CollectOrderNew(rows, a, b);
    }
  }

  /** Two names already in the dict keep their first rows, hence their order. */
  lemma CollectOrderOld(rows: seq<Option<Entry>>, a: int, b: int)
    requires rows != []
    requires 0 <= a < b < |Collect(rows[..|rows| - 1])|
    requires SomeRowNamed(rows[..|rows| - 1], Collect(rows[..|rows| - 1])[a].name)
    requires SomeRowNamed(rows[..|rows| - 1], Collect(rows[..|rows| - 1])[b].name)
    requires FirstRow(rows[..|rows| - 1], Collect(rows[..|rows| - 1])[a].name)
      < FirstRow(rows[..|rows| - 1], Collect(rows[..|rows| - 1])[b].name)
    ensures b < |Collect(rows)|
    ensures SomeRowNamed(rows, Collect(rows)[a].name) && SomeRowNamed(rows, Collect(rows)[b].name)
    ensures FirstRow(rows, Collect(rows)[a].name) < FirstRow(rows, Collect(rows)[b].name)
  {
    var d0 := Collect(rows[..|rows| - 1]);
    CollectSnoc(rows);
    FirstRowSnoc(rows, d0[a].name);
    FirstRowSnoc(rows, d0[b].name);
  }

  /** A name the last row adds first appears after every name already there. */
  lemma CollectOrderNew(rows: seq<Option<Entry>>, a: int, b: int)
    requires rows != []
    requires 0 <= a < b == |Collect(rows[..|rows| - 1])| < |Collect(rows)|
    requires SomeRowNamed(rows[..|rows| - 1], Collect(rows[..|rows| - 1])[a].name)
    ensures SomeRowNamed(rows, Collect(rows)[a].name) && SomeRowNamed(rows, Collect(rows)[b].name)
    ensures FirstRow(rows, Collect(rows)[a].name) < FirstRow(rows, Collect(rows)[b].name)
  {
    var init := rows[..|rows| - 1];
    var d0 := Collect(init);
    var key := Collect(rows)[b].name;
    CollectSnoc(rows);
    FirstRowSnoc(rows, d0[a].name);
    FirstRowLast(rows, key);
  }

  /** Some line of `lines` contributes the counter `key`. */
  ghost predicate SomeLineFor(lines: seq<string>, parse: string -> Option<real>, key: string)
  {
    exists i :: 0 <= i < |lines| && IsNamed(L1Row(lines[i], parse), key)
  }

  /** `extract_l1_cache_stats`: the L1 counters of the dump, or an empty dict
      when the file is missing. Every name kept is an L1 counter, and a name is
      kept exactly when some line of the file contributes it. */
  function ExtractL1CacheStats(file: Option<seq<string>>, parse: string -> Option<real>): (d: Dict)
    ensures file.None? ==> d == []
    ensures UniqueNames(d)
    ensures forall name :: name in Names(d) ==> IsL1Counter(name)
    ensures file.Some? ==> forall key :: Get(d, key).Some? <==> SomeLineFor(file.value, parse, key)
  {
    match file
    case None => []
    case Some(lines) =>
      var rows := L1Rows(lines, parse);
      RowsAreLines(lines, parse);
      Collect(rows)
  }

  lemma RowsAreLines(lines: seq<string>, parse: string -> Option<real>)
    ensures forall key :: SomeRowNamed(L1Rows(lines, parse), key) <==> SomeLineFor(lines, parse, key)
    ensures forall name :: SomeRowNamed(L1Rows(lines, parse), name) ==> IsL1Counter(name)
  {
    var rows := L1Rows(lines, parse);
    forall key | SomeRowNamed(rows, key)
      ensures SomeLineFor(lines, parse, key) && IsL1Counter(key)
    {
      var i :| 0 <= i < |rows| && IsNamed(rows[i], key);
      L1RowsAt(lines, parse, i);
    }
    forall key | SomeLineFor(lines, parse, key)
      ensures SomeRowNamed(rows, key)
    {
      var i :| 0 <= i < |lines| && IsNamed(L1Row(lines[i], parse), key);
      L1RowsAt(lines, parse, i);
    }
  }

  lemma L1RowsAt(lines: seq<string>, parse: string -> Option<real>, i: int)
    requires 0 <= i < |lines|
    ensures |L1Rows(lines, parse)| == |lines| && L1Rows(lines, parse)[i] == L1Row(lines[i], parse)
  {
  }

  /** `items()` of the extracted dict yields the counters in the order of the
      lines that first contribute them: of two kept counters, one comes before
      the other exactly when its first line comes before the other's. Row i of
      `L1Rows(lines, parse)` is what line i contributes. This is the order the
      scan of `calculate_cache_ratios` walks. */
  lemma FirstLineOrder(lines: seq<string>, parse: string -> Option<real>)
    ensures var rows := L1Rows(lines, parse); var d := ExtractL1CacheStats(Some(lines), parse);
      forall a :: 0 <= a < |d| ==> SomeRowNamed(rows, d[a].name)
    ensures var rows := L1Rows(lines, parse); var d := ExtractL1CacheStats(Some(lines), parse);
      forall a, b :: 0 <= a < |d| && 0 <= b < |d| ==>
        (a < b <==> FirstRow(rows, d[a].name) < FirstRow(rows, d[b].name))
  {
    var rows := L1Rows(lines, parse);
    assert ExtractL1CacheStats(Some(lines), parse) == Collect(rows);
    CollectOrder(rows);
  }

  /** A counter that appears on several lines keeps the value of its last
      line: if line i contributes it and no later line does, its value is the
      one line i carries. */
  lemma LastOccurrenceWins(lines: seq<string>, parse: string -> Option<real>, i: int)
    requires 0 <= i < |lines| && L1Row(lines[i], parse).Some?
    requires forall j :: i < j < |lines| ==> !IsNamed(L1Row(lines[j], parse), L1Row(lines[i], parse).value.name)
    ensures Get(ExtractL1CacheStats(Some(lines), parse), L1Row(lines[i], parse).value.name)
      == Some(L1Row(lines[i], parse).value.value)
  {
    var rows := L1Rows(lines, parse);
    assert forall j :: i < j < |lines| ==> rows[j] == L1Row(lines[j], parse);
    CollectLastWins(rows, i);
  }

  /** The value a line carries when it is a parsed row whose name, lower-cased,
      is `hostseconds`. Unlike the L1 filter, no `::` is required. */
  function HostRow(line: string, parse: string -> Option<real>): (r: Option<real>)
    ensures r.Some? <==> ParseRow(line, parse).Some? && SpellsHostSeconds(ParseRow(line, parse).value.name)
    ensures r.Some? ==> r.value == ParseRow(line, parse).value.value
  {
    match ParseRow(line, parse)
    case None => None
    case Some(e) =>
      HostSecondsName(e.name);
      if Lower(e.name) == "hostseconds" then Some(e.value) else None
  }

  /** `name` spells `hostseconds` with each letter in either case. */
  predicate SpellsHostSeconds(name: string)
  {
    |name| == 11 && forall k :: 0 <= k < 11 ==> name[k] == "hostseconds"[k] || name[k] == "HOSTSECONDS"[k]
  }

  /** The name test of `extract_hostseconds`: a name lower-cases to
      `hostseconds` exactly when it spells that word with each letter in
      either case. */
  lemma HostSecondsName(name: string)
    ensures Lower(name) == "hostseconds" <==> SpellsHostSeconds(name)
  {
    var w := "hostseconds";
    LowerIs(name, w);
    forall k | 0 <= k < 11
      ensures UpperChar(w[k]) == "HOSTSECONDS"[k]
    {
      assert k == 0 || k == 1 || k == 2 || k == 3 || k == 4 || k == 5 || k == 6 || k == 7 || k == 8 || k == 9 || k == 10;
    }
  }

  /** A dump line whose name lower-cases to `hostseconds` is a host-seconds
      row carrying its parsed value. */
  lemma HostRowAccepts(lead: string, name: string, sep: string, field: string, rest: string,
                       parse: string -> Option<real>, v: real)
    requires DumpLine(lead, name, sep, field, rest) && parse(field) == Some(v)
    requires Lower(name) == "hostseconds"
    ensures HostRow(lead + name + sep + field + rest, parse) == Some(v)
  {
    RowRoundTrip(lead, name, sep, field, rest, parse, v);
  }

  /** The simulator's own `hostSeconds` line is a host-seconds row. */
  lemma HostSecondsRow(lead: string, sep: string, field: string, rest: string,
                       parse: string -> Option<real>, v: real)
    requires DumpLine(lead, "hostSeconds", sep, field, rest) && parse(field) == Some(v)
    ensures HostRow(lead + "hostSeconds" + sep + field + rest, parse) == Some(v)
  {
    HostSecondsName("hostSeconds");
    HostRowAccepts(lead, "hostSeconds", sep, field, rest, parse, v);
  }

  function HostRows(lines: seq<string>, parse: string -> Option<real>): seq<Option<real>>
  {
    seq(|lines|, i requires 0 <= i < |lines| => HostRow(lines[i], parse))
  }

  predicate NoneBefore(found: seq<Option<real>>, i: int)
    requires i <= |found|
  {
    forall j :: 0 <= j < i ==> found[j].None?
  }

  /** The loop of `extract_hostseconds`: the first value found, or -1. */
  function FirstFound(found: seq<Option<real>>): (r: real)
    ensures NoneBefore(found, |found|) ==> r == -1.0
    ensures forall i :: 0 <= i < |found| && found[i].Some? && NoneBefore(found, i) ==> r == found[i].value
  {
    if found == [] then -1.0
    else if found[0].Some? then found[0].value
    else
      assert forall i :: 1 <= i <= |found| ==> (NoneBefore(found, i) <==> NoneBefore(found[1..], i - 1));
      FirstFound(found[1..])
  }

  /** No line before line i is a host-seconds row. */
  predicate NoHostRowBefore(lines: seq<string>, parse: string -> Option<real>, i: int)
    requires i <= |lines|
  {
    forall j :: 0 <= j < i ==> HostRow(lines[j], parse).None?
  }

  lemma HostRowsAreLines(lines: seq<string>, parse: string -> Option<real>)
    ensures forall i :: 0 <= i <= |lines| ==>
      (NoneBefore(HostRows(lines, parse), i) <==> NoHostRowBefore(lines, parse, i))
  {
    var found := HostRows(lines, parse);
    forall i | 0 <= i <= |lines|
      ensures NoneBefore(found, i) <==> NoHostRowBefore(lines, parse, i)
    {
      if NoneBefore(found, i) {
        forall j | 0 <= j < i
          ensures HostRow(lines[j], parse).None?
        {
          assert found[j].None?;
        }
      }
      if NoHostRowBefore(lines, parse, i) {
        forall j | 0 <= j < i
          ensures found[j].None?
        {
          assert HostRow(lines[j], parse).None?;
        }
      }
    }
  }

  /** `extract_hostseconds`: the value on the first parsed row named
      `hostSeconds` in any letter case; -1 when there is no such row or no
      file. A row of that name whose value does not parse is passed over. */
  function ExtractHostSeconds(file: Option<seq<string>>, parse: string -> Option<real>): (r: real)
    ensures file.None? ==> r == -1.0
    ensures file.Some? && NoHostRowBefore(file.value, parse, |file.value|) ==> r == -1.0
    ensures file.Some? ==> forall i ::
      (0 <= i < |file.value| && HostRow(file.value[i], parse).Some? && NoHostRowBefore(file.value, parse, i))
      ==> r == HostRow(file.value[i], parse).value
  {
    match file
    case None => -1.0
    case Some(lines) =>
      HostRowsAreLines(lines, parse);
      FirstFound(HostRows(lines, parse))
  }
}
