/** `rendersite.py`: the best-scoring counties, named and grouped by state
    for the site template. */
module RenderSite {
  import opened Wrappers
  import opened Seqs
  import opened Strings
  import opened Sorting
  import opened TopScore

  const ImagePrefix: string := "./images/impact_charts/"

  /** `df_top.iloc[:limit]`, with Python's slice bounds: a negative limit
      counts from the end and a limit past either end is clipped. */
  function Limit<T>(s: seq<T>, limit: Option<int>): (r: seq<T>)
    ensures |r| <= |s| && r == s[..|r|]
    ensures limit.None? ==> r == s
    ensures limit.Some? && limit.value >= 0 ==> |r| == if limit.value <= |s| then limit.value else |s|
    ensures limit.Some? && limit.value < 0 ==> |r| == if |s| + limit.value >= 0 then |s| + limit.value else 0
  {
    if limit.None? then s
    else
      var l := limit.value;
      var end := if l >= 0 then (if l <= |s| then l else |s|) else (if |s| + l >= 0 then |s| + l else 0);
      s[..end]
  }

  /** The kept rows are the best-scoring ones: each scores at least as high
      as every row the limit drops. */
  lemma LimitKeepsBest(ranked: seq<ScoreRecord>, limit: Option<int>, kept: ScoreRecord, dropped: ScoreRecord)
    requires SortedDesc(ranked, RecordScore)
    requires kept in Limit(ranked, limit) && dropped in ranked[|Limit(ranked, limit)|..]
    ensures kept.score >= dropped.score
  {
    PrefixDominates(ranked, RecordScore, |Limit(ranked, limit)|);
  }

  /** `county_state.split(",")[-1].strip()`. */
  function StateOf(name: string): string
  {
    var parts := Split(name, ',');
    Strip(parts[|parts| - 1])
  }

  /** `county_state.split(",")[0].strip()`. */
  function CountyOf(name: string): string
  {
    Strip(Split(name, ',')[0])
  }

  /** COUNTY is the stripped text before the first comma. */
  lemma CountyPart(name: string)
    ensures CountyOf(name) == Strip(name[..IndexOf(name, ',')])
  {
    var first := Split(name, ',')[0];
    assert first == name[..IndexOf(name, ',')];
  }

  /** STATE is the stripped text after the last comma. */
  lemma StatePart(name: string, p: nat)
    requires p < |name| && name[p] == ','
    requires forall k :: p < k < |name| ==> name[k] != ','
    ensures StateOf(name) == Strip(name[p + 1..])
  {
    SplitLast(name, ',', p);
  }

  /** Without a comma, STATE and COUNTY are both the whole name, stripped. */
  lemma NoComma(name: string)
    requires ',' !in name
    ensures CountyOf(name) == StateOf(name) == Strip(name)
  {
    SplitNoSeparator(name, ',');
  }

  /** A row of `df_top` once NAME, STATE and COUNTY are added. */
  datatype SiteRow = SiteRow(fips: string, score: real, name: string, state: string, county: string)

  /** The NAME, STATE and COUNTY columns; `nameOf` stands for the census
      lookup `cofips_name(fips, 2018)`. */
  function Named(r: ScoreRecord, nameOf: string -> string): (row: SiteRow)
    ensures row.fips == r.fips && row.score == r.score
    ensures row.state == StateOf(nameOf(r.fips)) && row.county == CountyOf(nameOf(r.fips))
  {
    var name := nameOf(r.fips);
    SiteRow(r.fips, r.score, name, StateOf(name), CountyOf(name))
  }

  function PlaceKey(r: SiteRow): (string, string)
  {
    (r.state, r.county)
  }

  /** One entry of `top_n_by_state`; the score is kept as a number. */
  datatype Entry = Entry(name: string, image: string, score: real)

  function EntryOf(r: SiteRow): (e: Entry)
    ensures e.name == r.county && StartsWith(e.image, ImagePrefix) && e.image[|ImagePrefix|..] == r.fips
  {
    Entry(r.county, ImagePrefix + r.fips, r.score)
  }

  /** The entries that rows of state `s` append, in row order. */
  function StateEntries(rows: seq<SiteRow>, s: string): seq<Entry>
  {
    if rows == [] then []
    else
      var last := rows[|rows| - 1];
      StateEntries(rows[..|rows| - 1], s) + (if last.state == s then [EntryOf(last)] else [])
  }

  /** The keys of `top_n_by_state` in insertion order: each state once, in
      order of its first row. */
  function StatesOf(rows: seq<SiteRow>): seq<string>
  {
    if rows == [] then []
    else
      var init := StatesOf(rows[..|rows| - 1]);
      if rows[|rows| - 1].state in init then init else init + [rows[|rows| - 1].state]
  }

  /** A state is a key iff some row has it, and no key repeats. */
  lemma {:induction false} StatesOfSpec(rows: seq<SiteRow>, s: string)
    ensures s in StatesOf(rows) <==> exists k :: 0 <= k < |rows| && rows[k].state == s
    ensures Distinct(StatesOf(rows))
  {
    if rows != [] {
      var init := rows[..|rows| - 1];
      StatesOfSpec(init, s);
      StatesOfSpec(init, rows[|rows| - 1].state);
      assert forall k :: 0 <= k < |init| ==> init[k] == rows[k];
      if s in StatesOf(rows) && s !in StatesOf(init) {
        assert rows[|rows| - 1].state == s;
      }
    }
  }

  /** Each entry of state `s` comes from a row of that state. */
  lemma {:induction false} StateEntriesSource(rows: seq<SiteRow>, s: string, e: Entry) returns (k: nat)
    requires e in StateEntries(rows, s)
    ensures k < |rows| && rows[k].state == s && e == EntryOf(rows[k])
  {
    var init := rows[..|rows| - 1];
    if e in StateEntries(init, s) {
      k := StateEntriesSource(init, s, e);
    } else {
      k := |rows| - 1;
    }
  }

  /** Each row's entry is in the group of its own state. */
  lemma {:induction false} StateEntriesHas(rows: seq<SiteRow>, k: nat)
    requires k < |rows|
    ensures EntryOf(rows[k]) in StateEntries(rows, rows[k].state)
  {
    var init := rows[..|rows| - 1];
    var s := rows[k].state;
    if k < |rows| - 1 {
      StateEntriesHas(init, k);
      assert init[k] == rows[k];
      var a := StateEntries(init, s);
      assert EntryOf(rows[k]) in a;
      var j :| 0 <= j < |a| && a[j] == EntryOf(rows[k]);
      assert StateEntries(rows, s)[j] == EntryOf(rows[k]);
    } else {
      var a := StateEntries(init, s);
      assert StateEntries(rows, s)[|a|] == EntryOf(rows[k]);
    }
  }

  /** The sizes of the groups of `states`, added up. */
  function GroupTotal(rows: seq<SiteRow>, states: seq<string>): nat
  {
    if states == [] then 0 else |StateEntries(rows, states[0])| + GroupTotal(rows, states[1..])
  }

  /** Every row lands in exactly one group, so the groups hold as many
      entries as there are rows. */
  lemma {:induction false} GroupsCoverRows(rows: seq<SiteRow>)
    ensures GroupTotal(rows, StatesOf(rows)) == |rows|
  {
    if rows != [] {
      var init := rows[..|rows| - 1];
      var s := rows[|rows| - 1].state;
      GroupsCoverRows(init);
      StatesOfSpec(init, s);
      GroupTotalSnoc(rows, StatesOf(init));
      if s !in StatesOf(init) {
        GroupTotalAppend(rows, StatesOf(init), s);
        NoEntriesWithoutRows(init, s);
      }
    }
  }

  /** Appending a row adds one to the total of any list of distinct states
      that holds its state, and nothing otherwise. */
  lemma {:induction false} GroupTotalSnoc(rows: seq<SiteRow>, states: seq<string>)
    requires rows != [] && Distinct(states)
    ensures var s := rows[|rows| - 1].state;
            GroupTotal(rows, states) == GroupTotal(rows[..|rows| - 1], states) + (if s in states then 1 else 0)
  {
    if states != [] {
      assert Distinct(states[1..]) by {
        assert forall i :: 0 <= i < |states| - 1 ==> states[1..][i] == states[i + 1];
      }
      GroupTotalSnoc(rows, states[1..]);
      var s := rows[|rows| - 1].state;
      if s == states[0] {
        assert s !in states[1..] by {
          assert forall i :: 0 <= i < |states| - 1 ==> states[1..][i] == states[i + 1];
        }
      }
    }
  }

  lemma {:induction false} GroupTotalAppend(rows: seq<SiteRow>, states: seq<string>, s: string)
    ensures GroupTotal(rows, states + [s]) == GroupTotal(rows, states) + |StateEntries(rows, s)|
  {
    if states != [] {
      assert (states + [s])[1..] == states[1..] + [s];
      GroupTotalAppend(rows, states[1..], s);
    } else {
      assert ([s])[1..] == [];
    }
  }

  /** A state without rows has no entries. */
  lemma {:induction false} NoEntriesWithoutRows(rows: seq<SiteRow>, s: string)
    requires forall k :: 0 <= k < |rows| ==> rows[k].state != s
    ensures StateEntries(rows, s) == []
  {
    if rows != [] {
      NoEntriesWithoutRows(rows[..|rows| - 1], s);
    }
  }

  ghost predicate NamesInOrder(es: seq<Entry>)
  {
    forall i, j :: 0 <= i < j < |es| ==> LexLeq(es[i].name, es[j].name)
  }

  /** When the rows are sorted by (STATE, COUNTY), each state's list is in
      non-decreasing county order. */
  lemma {:induction false} StateEntriesSorted(rows: seq<SiteRow>, s: string)
    requires SortedByPair(rows, PlaceKey)
    ensures NamesInOrder(StateEntries(rows, s))
  {
    if rows != [] {
      var init := rows[..|rows| - 1];
      var last := rows[|rows| - 1];
      assert SortedByPair(init, PlaceKey) by {
        assert forall k :: 0 <= k < |init| ==> init[k] == rows[k];
      }
      StateEntriesSorted(init, s);
      var a := StateEntries(init, s);
      if last.state == s {
        var es := a + [EntryOf(last)];
        forall i | 0 <= i < |a| ensures LexLeq(a[i].name, last.county) {
          assert a[i] in a;
          var k := StateEntriesSource(init, s, a[i]);
          assert init[k] == rows[k];
          assert PairLeq(PlaceKey(rows[k]), PlaceKey(last));
          assert a[i].name == rows[k].county;
        }
        assert StateEntries(rows, s) == es;
        forall i, j | 0 <= i < j < |es| ensures LexLeq(es[i].name, es[j].name) {
          assert es[i] == a[i];
          if j < |a| {
            assert es[j] == a[j];
          } else {
            assert es[j] == EntryOf(last);
          }
        }
      } else {
        assert StateEntries(rows, s) == a;
      }
    }
  }

  /** The rows of `df_top` after the limit, named and sorted by (STATE,
      COUNTY). The score sort and the place sort are in place in the
      source; here they produce new sequences. */
  function SiteRows(records: seq<ScoreRecord>, limit: Option<int>, nameOf: string -> string): (rows: seq<SiteRow>)
    ensures SortedByPair(rows, PlaceKey)
    ensures var kept := Limit(SortDesc(records, RecordScore), limit);
            multiset(rows) == multiset(seq(|kept|, i requires 0 <= i < |kept| => Named(kept[i], nameOf)))
  {
    var kept := Limit(SortDesc(records, RecordScore), limit);
    SortByPair(seq(|kept|, i requires 0 <= i < |kept| => Named(kept[i], nameOf)), PlaceKey)
  }

  /** The loop filling `top_n_by_state`: its keys in insertion order and
      its lists. */
  method GroupByState(rows: seq<SiteRow>) returns (states: seq<string>, groups: map<string, seq<Entry>>)
    ensures states == StatesOf(rows)
    ensures forall s :: s in groups <==> s in states
    ensures forall s :: s in groups ==> groups[s] == StateEntries(rows, s)
  {
    states := [];
    groups := map[];
    for i := 0 to |rows|
      invariant states == StatesOf(rows[..i])
      invariant forall s :: s in groups <==> s in states
      invariant forall s :: s in groups ==> groups[s] == StateEntries(rows[..i], s)
    {
      var row := rows[i];
      assert rows[..i + 1][..i] == rows[..i];
      assert rows[..i + 1][i] == row;
      if row.state !in groups {
        StatesOfSpec(rows[..i], row.state);
        NoEntriesWithoutRows(rows[..i], row.state);
        groups := groups[row.state := []];
        states := states + [row.state];
      }
      groups := groups[row.state := groups[row.state] + [EntryOf(row)]];
    }
    assert rows[..|rows|] == rows;
  }

  /** `main` without the template: rank, limit, name, sort by place and
      group by state. */
  method RenderSite(records: seq<ScoreRecord>, limit: Option<int>, nameOf: string -> string)
    returns (states: seq<string>, groups: map<string, seq<Entry>>)
    ensures var rows := SiteRows(records, limit, nameOf);
            states == StatesOf(rows) &&
            (forall s :: s in groups <==> s in states) &&
            (forall s :: s in groups ==> groups[s] == StateEntries(rows, s))
  {
    var rows := SiteRows(records, limit, nameOf);
    states, groups := GroupByState(rows);
  }

  /** What the template receives: every kept row once, under its own state,
      each state's list in county order. */
  lemma RenderSiteSpec(records: seq<ScoreRecord>, limit: Option<int>, nameOf: string -> string)
    ensures var rows := SiteRows(records, limit, nameOf);
            GroupTotal(rows, StatesOf(rows)) == |Limit(SortDesc(records, RecordScore), limit)|
    ensures var rows := SiteRows(records, limit, nameOf);
            forall k :: 0 <= k < |rows| ==> EntryOf(rows[k]) in StateEntries(rows, rows[k].state)
  {
    var rows := SiteRows(records, limit, nameOf);
    GroupsCoverRows(rows);
    assert |rows| == |Limit(SortDesc(records, RecordScore), limit)| by {
      assert |multiset(rows)| == |Limit(SortDesc(records, RecordScore), limit)|;
    }
    forall k | 0 <= k < |rows| ensures EntryOf(rows[k]) in StateEntries(rows, rows[k].state) {
      StateEntriesHas(rows, k);
    }
  }
}
