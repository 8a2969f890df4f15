/** The CPU pool file and the CPU lists requested against it: `get_value`, `parse_cpu_pool_line` and
    `check_cpu_ids` of `enclave_proc/cpu_info.rs`. */
module CpuList {
  import opened NeTypes
  import opened Text

  const U32: nat := 0x1_0000_0000

  // ----- Splitting -----

  /** `split` on a character: the pieces between its occurrences. */
  function Split(s: string, c: char): (pieces: seq<string>)
    ensures |pieces| > 0
  {
    if s == "" then [""]
    else
      var rest := Split(s[1..], c);
      if s[0] == c then [""] + rest else [[s[0]] + rest[0]] + rest[1..]
  }

  function Join(pieces: seq<string>, c: char): string
    requires |pieces| > 0
  {
    if |pieces| == 1 then pieces[0] else pieces[0] + [c] + Join(pieces[1..], c)
  }

  /** `c` does not occur in `s`. */
  predicate Free(s: string, c: char) { forall i :: 0 <= i < |s| ==> s[i] != c }

  lemma {:induction false} SplitPiece(s: string, c: char, rest: string)
    requires Free(s, c)
    ensures Split(s, c) == [s]
    ensures Split(s + [c] + rest, c) == [s] + Split(rest, c)
  {
    if s == "" {
      assert (s + [c] + rest)[1..] == rest;
    } else {
      SplitPiece(s[1..], c, rest);
      assert (s + [c] + rest)[1..] == s[1..] + [c] + rest;
      assert [s[0]] + s[1..] == s;
    }
  }

  /** Splitting undoes joining. */
  lemma {:induction false} SplitJoin(pieces: seq<string>, c: char)
    requires |pieces| > 0 && forall i :: 0 <= i < |pieces| ==> Free(pieces[i], c)
    ensures Split(Join(pieces, c), c) == pieces
  {
    if |pieces| == 1 {
      SplitPiece(pieces[0], c, "");
    } else {
      SplitJoin(pieces[1..], c);
      SplitPiece(pieces[0], c, Join(pieces[1..], c));
    }
  }

  /** Joining undoes splitting, and no piece has the separator. */
  lemma {:induction false} JoinSplit(s: string, c: char)
    ensures Join(Split(s, c), c) == s && forall i :: 0 <= i < |Split(s, c)| ==> Free(Split(s, c)[i], c)
  {
    if s != "" {
      JoinSplit(s[1..], c);
      var rest := Split(s[1..], c);
      var pieces := Split(s, c);
      if s[0] == c {
        assert pieces[1..] == rest;
      } else {
        assert pieces[1..] == rest[1..] && pieces[0] == [s[0]] + rest[0];
        forall i | 0 <= i < |pieces| ensures Free(pieces[i], c) {
          if i > 0 { assert pieces[i] == rest[i]; } else { assert Free(rest[0], c); }
        }
      }
    }
  }

  // ----- Parsing -----

  /** `get_value`. */
  function GetValue(s: string): Option<nat> { ParseUint(Strip(s), 10, U32) }

  /** The ids from `lo` to `hi`, both included. */
  function Ids(lo: nat, hi: nat): (ids: seq<nat>)
    ensures forall id: nat :: id in ids <==> lo <= id <= hi
    decreases hi + 1 - lo
  {
    if lo > hi then [] else [lo] + Ids(lo + 1, hi)
  }

  function ParseInterval(s: string): Option<seq<nat>> {
    var bounds := Split(s, '-');
    if |bounds| == 1 then
      var v := GetValue(bounds[0]);
      if v.None? then None else Some([v.value])
    else if |bounds| == 2 then
      var lo, hi := GetValue(bounds[0]), GetValue(bounds[1]);
      if lo.None? || hi.None? then None else Some(Ids(lo.value, hi.value))
    else None
  }

  function Both(a: Option<seq<nat>>, b: Option<seq<nat>>): Option<seq<nat>> {
    if a.None? || b.None? then None else Some(a.value + b.value)
  }

  /** The ids of all intervals, in order, unless one is malformed. */
  function ParseIntervals(intervals: seq<string>): Option<seq<nat>> {
    if intervals == [] then Some([])
    else Both(ParseIntervals(intervals[..|intervals| - 1]), ParseInterval(intervals[|intervals| - 1]))
  }

  lemma {:induction false} FailureStays(intervals: seq<string>, more: seq<string>)
    requires ParseIntervals(intervals).None?
    ensures ParseIntervals(intervals + more).None?
  {
    if more == [] {
      assert intervals + more == intervals;
    } else {
      FailureStays(intervals, more[..|more| - 1]);
      assert (intervals + more)[..|intervals + more| - 1] == intervals + more[..|more| - 1];
    }
  }

  /** A list of intervals parses exactly if each of them does. */
  lemma {:induction false} AllParse(intervals: seq<string>)
    ensures ParseIntervals(intervals).Some? <==>
            forall i :: 0 <= i < |intervals| ==> ParseInterval(intervals[i]).Some?
  {
    if intervals != [] {
      var init, last := intervals[..|intervals| - 1], intervals[|intervals| - 1];
      AllParse(init);
      assert forall i :: 0 <= i < |init| ==> init[i] == intervals[i];
      assert intervals[|init|] == last;
    }
  }

  lemma ParseNext(intervals: seq<string>, k: nat)
    requires k < |intervals|
    ensures ParseIntervals(intervals[..k + 1]) == Both(ParseIntervals(intervals[..k]), ParseInterval(intervals[k]))
  {
    assert intervals[..k + 1][..k] == intervals[..k];
  }

  lemma PrefixFails(intervals: seq<string>, k: nat)
    requires k <= |intervals| && ParseIntervals(intervals[..k]).None?
    ensures ParseIntervals(intervals).None?
  {
    FailureStays(intervals[..k], intervals[k..]);
    assert intervals[..k] + intervals[k..] == intervals;
  }

  /** `parse_cpu_pool_line`. */
  method ParseCpuPoolLine(line: string) returns (r: Option<seq<nat>>)
    ensures r == ParseIntervals(Split(line, ','))
    ensures r.Some? <==> forall i :: 0 <= i < |Split(line, ',')| ==> ParseInterval(Split(line, ',')[i]).Some?
  {
    AllParse(Split(line, ','));
    var result: seq<nat> := [];
    var intervals := Split(line, ',');
    for k := 0 to |intervals|
      invariant ParseIntervals(intervals[..k]) == Some(result)
    {
      ParseNext(intervals, k);
      if ParseInterval(intervals[k]).None? { PrefixFails(intervals, k + 1); }
      var bounds := Split(intervals[k], '-');
      match |bounds| {
        case 1 =>
          var v := GetValue(bounds[0]);
          if v.None? { return None; }
          result := result + [v.value];
        case 2 =>
          var lo := GetValue(bounds[0]);
          if lo.None? { return None; }
          var hi := GetValue(bounds[1]);
          if hi.None? { return None; }
          var ids := PushInterval(lo.value, hi.value, result);
          result := ids;
        case _ => return None;
      }
    }
    assert intervals[..|intervals|] == intervals;
    r := Some(result);
  }

  /** The inner loop: pushes the ids of an interval. */
  method PushInterval(lo: nat, hi: nat, before: seq<nat>) returns (result: seq<nat>)
    ensures result == before + Ids(lo, hi)
  {
    result := before;
    var id := lo;
    while id <= hi
      invariant lo <= id
      invariant result + Ids(id, hi) == before + Ids(lo, hi)
    {
      assert Ids(id, hi) == [id] + Ids(id + 1, hi);
      result := result + [id];
      id := id + 1;
    }
    assert Ids(id, hi) == [];
  }

  // ----- Rendering -----

  /** A number with whitespace around it. */
  datatype Number = Number(before: string, value: nat, after: string)

  predicate NumberOk(n: Number) { Blank(n.before) && n.value < U32 && Blank(n.after) }

  datatype Item = One(id: Number) | Interval(lo: Number, hi: Number)

  predicate ItemOk(i: Item) { if i.One? then NumberOk(i.id) else NumberOk(i.lo) && NumberOk(i.hi) }

  function NumberText(n: Number): string { n.before + Numeral(n.value, 10) + n.after }

  function ItemText(i: Item): string {
    if i.One? then NumberText(i.id) else NumberText(i.lo) + "-" + NumberText(i.hi)
  }

  function Texts(items: seq<Item>): (texts: seq<string>)
    ensures |texts| == |items|
  {
    seq(|items|, i requires 0 <= i < |items| => ItemText(items[i]))
  }

  /** A line of the pool file. */
  function LineText(items: seq<Item>): string
    requires items != []
  {
    Join(Texts(items), ',')
  }

  function Expansion(i: Item): seq<nat> {
    if i.One? then [i.id.value] else Ids(i.lo.value, i.hi.value)
  }

  function Expand(items: seq<Item>): seq<nat> {
    if items == [] then [] else Expand(items[..|items| - 1]) + Expansion(items[|items| - 1])
  }

  predicate Covers(i: Item, id: nat) {
    if i.One? then id == i.id.value else i.lo.value <= id <= i.hi.value
  }

  lemma DigitsAreVisible(s: string)
    requires forall i :: 0 <= i < |s| ==> DigitValue(s[i], 10).Some?
    ensures Strip(s) == s && Free(s, '-') && Free(s, ',')
  {
    forall i | 0 <= i < |s| ensures !IsWhitespace(s[i]) { assert DigitValue(s[i], 10).Some?; }
    StripKeepsVisible(s);
  }

  lemma NumberStripped(n: Number)
    requires NumberOk(n)
    ensures Strip(NumberText(n)) == Numeral(n.value, 10)
  {
    DigitsAreVisible(Numeral(n.value, 10));
    StripAround(n.before, Numeral(n.value, 10), n.after);
  }

  lemma FreeAppend(a: string, b: string, c: char)
    requires Free(a, c) && Free(b, c)
    ensures Free(a + b, c)
  {
  }

  lemma NumberFree(n: Number, c: char)
    requires NumberOk(n) && (c == '-' || c == ',')
    ensures Free(NumberText(n), c)
  {
    DigitsAreVisible(Numeral(n.value, 10));
    assert forall i :: 0 <= i < |n.before| ==> IsWhitespace(n.before[i]);
    assert forall i :: 0 <= i < |n.after| ==> IsWhitespace(n.after[i]);
    FreeAppend(n.before, Numeral(n.value, 10), c);
    FreeAppend(n.before + Numeral(n.value, 10), n.after, c);
  }

  lemma NumberParses(n: Number)
    requires NumberOk(n)
    ensures GetValue(NumberText(n)) == Some(n.value)
    ensures Free(NumberText(n), '-') && Free(NumberText(n), ',')
  {
    NumberStripped(n);
    NumeralRoundTrip(n.value, 10, U32);
    NumberFree(n, '-');
    NumberFree(n, ',');
  }

  lemma IntervalParses(lo: string, hi: string, l: nat, h: nat)
    requires Free(lo, '-') && Free(hi, '-') && GetValue(lo) == Some(l) && GetValue(hi) == Some(h)
    ensures ParseInterval(lo) == Some([l])
    ensures ParseInterval(lo + "-" + hi) == Some(Ids(l, h))
  {
    SplitPiece(lo, '-', hi);
    SplitPiece(hi, '-', "");
    assert lo + "-" + hi == lo + ['-'] + hi;
  }

  /** Only a number, or two numbers with one '-' between them, make an interval. */
  lemma OnlyIntervalsParse(s: string)
    ensures ParseInterval(s).Some? <==>
            || (Free(s, '-') && GetValue(s).Some?)
            || exists lo, hi :: s == lo + "-" + hi && IsPair(lo, hi)
  {
    var bounds := Split(s, '-');
    JoinSplit(s, '-');
    if |bounds| == 2 {
      assert Join(bounds[1..], '-') == bounds[1];
      assert s == bounds[0] + "-" + bounds[1];
      assert ParseInterval(s).Some? <==> IsPair(bounds[0], bounds[1]);
    }
    if Free(s, '-') { SplitPiece(s, '-', ""); }
    forall lo, hi | s == lo + "-" + hi && IsPair(lo, hi) ensures ParseInterval(s).Some? {
      IntervalParses(lo, hi, GetValue(lo).value, GetValue(hi).value);
    }
  }

  /** Two numbers. */
  predicate IsPair(lo: string, hi: string) {
    Free(lo, '-') && Free(hi, '-') && GetValue(lo).Some? && GetValue(hi).Some?
  }

  lemma ItemParses(i: Item)
    requires ItemOk(i)
    ensures ParseInterval(ItemText(i)) == Some(Expansion(i)) && Free(ItemText(i), ',')
  {
    if i.One? {
      NumberParses(i.id);
      IntervalParses(NumberText(i.id), NumberText(i.id), i.id.value, i.id.value);
    } else {
      NumberParses(i.lo);
      NumberParses(i.hi);
      IntervalParses(NumberText(i.lo), NumberText(i.hi), i.lo.value, i.hi.value);
      FreeAppend(NumberText(i.lo), "-", ',');
      FreeAppend(NumberText(i.lo) + "-", NumberText(i.hi), ',');
    }
  }

  lemma TextsSnoc(items: seq<Item>)
    requires items != []
    ensures Texts(items) == Texts(items[..|items| - 1]) + [ItemText(items[|items| - 1])]
  {
  }

  lemma ParseSnoc(texts: seq<string>, last: string, ids: seq<nat>, more: seq<nat>)
    requires ParseIntervals(texts) == Some(ids) && ParseInterval(last) == Some(more)
    ensures ParseIntervals(texts + [last]) == Some(ids + more)
  {
    assert (texts + [last])[..|texts|] == texts;
  }

  lemma {:induction false} TextsParse(items: seq<Item>)
    requires forall i :: 0 <= i < |items| ==> ItemOk(items[i])
    ensures ParseIntervals(Texts(items)) == Some(Expand(items))
  {
    if items == [] {
      assert Texts(items) == [];
    } else {
      var n := |items| - 1;
      TextsParse(items[..n]);
      ItemParses(items[n]);
      ParseSnoc(Texts(items[..n]), ItemText(items[n]), Expand(items[..n]), Expansion(items[n]));
      TextsSnoc(items);
    }
  }

  /** Parsing a line gives the ids of its items in order, with any whitespace around the numbers. */
  lemma LineParses(items: seq<Item>)
    requires items != [] && forall i :: 0 <= i < |items| ==> ItemOk(items[i])
    ensures ParseIntervals(Split(LineText(items), ',')) == Some(Expand(items))
  {
    TextsParse(items);
    forall i | 0 <= i < |items| ensures Free(Texts(items)[i], ',') { ItemParses(items[i]); }
    SplitJoin(Texts(items), ',');
  }

  /** One of the items covers `id`. */
  ghost predicate AnyCovers(items: seq<Item>, id: nat) {
    exists i :: 0 <= i < |items| && Covers(items[i], id)
  }

  lemma AnyCoversSnoc(items: seq<Item>, last: Item, id: nat)
    ensures AnyCovers(items + [last], id) <==> AnyCovers(items, id) || Covers(last, id)
  {
    var all := items + [last];
    assert all[|items|] == last && forall i :: 0 <= i < |items| ==> all[i] == items[i];
  }

  lemma {:induction false} ExpandMembers(items: seq<Item>, id: nat)
    ensures id in Expand(items) <==> AnyCovers(items, id)
  {
    if items != [] {
      var init, last := items[..|items| - 1], items[|items| - 1];
      ExpandMembers(init, id);
      AnyCoversSnoc(init, last, id);
      assert items == init + [last];
    }
  }

  // ----- Checking a request -----

  /** `check_cpu_ids`: accepts exactly the lists without duplicates that are inside the pool. */
  method CheckCpuIds(pool: seq<nat>, ids: seq<nat>) returns (ok: bool)
    ensures ok <==> Distinct(ids) && forall id :: id in ids ==> id in pool
  {
    var unique: set<nat> := {};
    for i := 0 to |ids|
      invariant |unique| <= i && (|unique| == i <==> Distinct(ids[..i]))
      invariant forall id :: id in unique <==> id in ids[..i]
    {
      assert ids[..i + 1] == ids[..i] + [ids[i]];
      assert ids[i] in unique ==> !Distinct(ids[..i + 1]) by {
        if ids[i] in unique {
          var j :| 0 <= j < i && ids[..i][j] == ids[i];
          assert ids[..i + 1][j] == ids[..i + 1][i];
        }
      }
      assert Distinct(ids[..i + 1]) ==> Distinct(ids[..i]) by {
        assert forall j :: 0 <= j < i ==> ids[..i][j] == ids[..i + 1][j];
      }
      unique := unique + {ids[i]};
    }
    assert ids[..|ids|] == ids;
    if |unique| < |ids| { return false; }
    var left := unique;
    while left != {}
      invariant left <= unique && forall id :: id in unique - left ==> id in pool
      decreases |left|
    {
      var id :| id in left;
      if id !in pool { return false; }
      left := left - {id};
    }
    ok := true;
  }

  /** A request is accepted against a pool file's line exactly when it has no duplicates and every id is one of
      the line's numbers or inside one of its intervals. */
  method CheckAgainstLine(items: seq<Item>, ids: seq<nat>) returns (ok: bool)
    requires items != [] && forall i :: 0 <= i < |items| ==> ItemOk(items[i])
    ensures ok <==> Distinct(ids) && forall id :: id in ids ==> AnyCovers(items, id)
  {
    var pool := ParseCpuPoolLine(LineText(items));
    LineParses(items);
    ok := CheckCpuIds(pool.value, ids);
    forall id: nat ensures id in pool.value <==> AnyCovers(items, id) { ExpandMembers(items, id); }
  }
}
