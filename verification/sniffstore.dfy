/** The sniff store: the page-wide list of classified frames, newest first
    and capped at 1000 entries, fed by `processUARTData` (the declaration at
    script.js line 915) and reordered by `sortSniffTable`. */
module SniffStore {
  import opened Wrappers
  import opened Classifier

  /** The cap on the number of stored frames. */
  const MaxEntries: nat := 1000

  function Min(a: int, b: int): int {
    if a <= b then a else b
  }

  /** The first `n` elements of `s`, or all of them when there are fewer:
      `s.slice(0, n)`. */
  function Take<T>(s: seq<T>, n: nat): (r: seq<T>)
    ensures |r| == Min(|s|, n)
    ensures r == s[..|r|]
  {
    if |s| <= n then s else s[..n]
  }

  /** `s` in reverse order. */
  function Reverse<T>(s: seq<T>): (r: seq<T>)
    ensures |r| == |s|
    ensures forall k | 0 <= k < |s| :: r[k] == s[|s| - 1 - k]
  {
    if s == [] then [] else Reverse(s[1..]) + [s[0]]
  }

  /** `sniffData.unshift(rec)`, then the cut to the newest `MaxEntries`. The new
      record comes first, the previous contents follow in their old order, and
      only the oldest entry beyond the cap is lost. */
  function Record(store: seq<FrameRecord>, rec: FrameRecord): (r: seq<FrameRecord>)
    ensures |r| == Min(|store| + 1, MaxEntries)
    ensures r[0] == rec
    ensures forall k | 1 <= k < |r| :: r[k] == store[k - 1]
  {
    var grown := [rec] + store;
    if |grown| > MaxEntries then grown[..MaxEntries] else grown
  }

  /** The store after recording `recs` one after the other, oldest first. */
  function RecordAll(store: seq<FrameRecord>, recs: seq<FrameRecord>): seq<FrameRecord>
    decreases |recs|
  {
    if recs == [] then store
    else Record(RecordAll(store, recs[..|recs| - 1]), recs[|recs| - 1])
  }

  /** Recording a batch leaves the newest `MaxEntries` of "batch newest first,
      then the old store": the store is a most-recent-first window. */
  lemma {:induction false} RecordAllWindow(store: seq<FrameRecord>, recs: seq<FrameRecord>)
    requires recs != [] || |store| <= MaxEntries
    ensures RecordAll(store, recs) == Take(Reverse(recs) + store, MaxEntries)
    decreases |recs|
  {
    if recs != [] {
      var init, last := recs[..|recs| - 1], recs[|recs| - 1];
      var before := RecordAll(store, init);
      var w := Reverse(init) + store;
      if init != [] {
        RecordAllWindow(store, init);
      }
      assert before == w[..|before|] && Min(|w|, MaxEntries) <= |before|;
      assert Reverse(recs) == [last] + Reverse(init) by {
        assert recs == init + [last];
        ReverseSnoc(init, last);
      }
      var r := Record(before, last);
      var t := Take([last] + w, MaxEntries);
      assert |r| == |t|;
      forall k | 0 <= k < |r|
        ensures r[k] == t[k]
      {
        if k > 0 {
          assert r[k] == before[k - 1];
        }
      }
    }
  }

  lemma ReverseSnoc<T>(s: seq<T>, x: T)
    ensures Reverse(s + [x]) == [x] + Reverse(s)
  {
    var r := Reverse(s + [x]);
    assert r[0] == x;
    assert forall k | 1 <= k < |r| :: r[k] == (s + [x])[|s| - k] == s[|s| - k];
  }

  /** Starting from the empty store, 1001 recorded frames leave exactly 1000:
      the first one recorded is evicted and the rest are held newest first. */
  lemma EvictsOldest(recs: seq<FrameRecord>)
    requires |recs| == MaxEntries + 1
    ensures RecordAll([], recs) == Reverse(recs[1..])
    ensures |RecordAll([], recs)| == MaxEntries
    ensures RecordAll([], recs)[MaxEntries - 1] == recs[1]
  {
    RecordAllWindow([], recs);
    var w := Reverse(recs) + [];
    assert Take(w, MaxEntries) == Reverse(recs[1..]);
  }

  /** `processUARTData(line)` as declared at script.js line 915: a line that
      classifies as a frame is recorded, any other line leaves the store as
      it was. The check for a `type` of `CMD` there never fires, because the
      classifier's records carry no such field, so it is not modelled. */
  function ProcessUartData(store: seq<FrameRecord>, line: string): (r: seq<FrameRecord>)
    ensures ParseUartData(line).None? ==> r == store
    ensures ParseUartData(line).Some? ==>
      && |r| == Min(|store| + 1, MaxEntries)
      && r[0] == ParseUartData(line).value
      && forall k | 1 <= k < |r| :: r[k] == store[k - 1]
    ensures |store| <= MaxEntries ==> |r| <= MaxEntries
  {
    match ParseUartData(line)
    case Some(rec) => Record(store, rec)
    case None => store
  }

  /** The frames a sequence of lines classifies into, in line order. */
  function Frames(lines: seq<string>): seq<FrameRecord>
    decreases |lines|
  {
    if lines == [] then []
    else
      var init := Frames(lines[..|lines| - 1]);
      match ParseUartData(lines[|lines| - 1])
      case Some(rec) => init + [rec]
      case None => init
  }

  /** The store after feeding it `lines` in order. */
  function ProcessAll(store: seq<FrameRecord>, lines: seq<string>): seq<FrameRecord>
    decreases |lines|
  {
    if lines == [] then store
    else ProcessUartData(ProcessAll(store, lines[..|lines| - 1]), lines[|lines| - 1])
  }

  /** Feeding lines one by one is recording, in order, the frames they
      classify into. */
  lemma {:induction false} ProcessAllIsRecordAll(store: seq<FrameRecord>, lines: seq<string>)
    ensures ProcessAll(store, lines) == RecordAll(store, Frames(lines))
    decreases |lines|
  {
    if lines != [] {
      var init := lines[..|lines| - 1];
      ProcessAllIsRecordAll(store, init);
      match ParseUartData(lines[|lines| - 1])
      case Some(rec) =>
        var fs := Frames(init) + [rec];
        assert fs[..|fs| - 1] == Frames(init);
      case None =>
    }
  }

  /** Feeding lines records exactly the frames they classify into: non-frame
      lines leave no trace, and the bound and newest-first order are kept. */
  lemma {:induction false} ProcessAllRecordsFrames(store: seq<FrameRecord>, lines: seq<string>)
    requires |store| <= MaxEntries
    ensures ProcessAll(store, lines) == Take(Reverse(Frames(lines)) + store, MaxEntries)
    ensures |ProcessAll(store, lines)| <= MaxEntries
  {
    ProcessAllIsRecordAll(store, lines);
    RecordAllWindow(store, Frames(lines));
  }

  // ---------------------------------------------------------------------
  // sortSniffTable

  /** A header cell's `data-sort` attribute. */
  datatype SortMark = Unmarked | Asc | Desc

  /** The value a column shows: text, the boolean flag, or `undefined` for a
      column index past the property list. */
  datatype Cell = Text(text: string) | Flag(flag: bool) | Undefined

  /** `entry[properties[col]]` */
  function Column(rec: FrameRecord, col: nat): Cell {
    if col == 0 then Text(rec.frameType)
    else if col == 1 then Text(rec.frameSubtype)
    else if col == 2 then Text(rec.sourceMac)
    else if col == 3 then Text(rec.destMac)
    else if col == 4 then Text(rec.ssid)
    else if col == 5 then Text(rec.reasonCode)
    else if col == 6 then Flag(rec.isPwnagotchi)
    else Undefined
  }

  /** JavaScript's `<` on two strings, as lexicographic code-point order with
      a proper prefix first. This agrees with JavaScript's code-unit order on
      Basic Multilingual Plane text. */
  predicate StringLess(x: string, y: string)
    decreases |x|
  {
    if y == [] then false
    else if x == [] then true
    else if x[0] != y[0] then x[0] < y[0]
    else StringLess(x[1..], y[1..])
  }

  lemma {:induction false} StringLessAsymmetric(x: string, y: string)
    ensures StringLess(x, y) ==> !StringLess(y, x)
    decreases |x|
  {
    if x != [] && y != [] && x[0] == y[0] {
      StringLessAsymmetric(x[1..], y[1..]);
    }
  }

  lemma {:induction false} StringLessTotal(x: string, y: string)
    ensures x == y || StringLess(x, y) || StringLess(y, x)
    decreases |x|
  {
    if x != [] && y != [] && x[0] == y[0] {
      StringLessTotal(x[1..], y[1..]);
      if x[1..] == y[1..] {
        assert x == [x[0]] + x[1..] && y == [y[0]] + y[1..];
      }
    }
  }

  lemma {:induction false} StringLessTransitive(x: string, y: string, z: string)
    requires StringLess(x, y) && StringLess(y, z)
    ensures StringLess(x, z)
    decreases |x|
  {
    if x != [] && x[0] == y[0] && y[0] == z[0] {
      StringLessTransitive(x[1..], y[1..], z[1..]);
    }
  }

  /** JavaScript's `<` on two values of one column; `undefined` is never less. */
  predicate CellLess(a: Cell, b: Cell) {
    match (a, b)
    case (Text(x), Text(y)) => StringLess(x, y)
    case (Flag(x), Flag(y)) => !x && y
    case _ => false
  }

  lemma CellLessAsymmetric(a: Cell, b: Cell)
    ensures CellLess(a, b) ==> !CellLess(b, a)
  {
    if a.Text? && b.Text? {
      StringLessAsymmetric(a.text, b.text);
    }
  }

  /** The comparator `sortSniffTable` hands to `sort`, where `wasAscending`
      says the header was marked `asc` before the click. */
  function Compare(a: Cell, b: Cell, wasAscending: bool): (c: int)
    ensures -1 <= c <= 1
    ensures c == 0 <==> !CellLess(a, b) && !CellLess(b, a)
    ensures wasAscending ==> (c < 0 <==> CellLess(b, a))
    ensures !wasAscending ==> (c < 0 <==> CellLess(a, b))
  {
    CellLessAsymmetric(a, b);
    if wasAscending then
      (if CellLess(b, a) then -1
       else if CellLess(a, b) then 1 else 0)
    else
      (if CellLess(a, b) then -1 else if CellLess(b, a) then 1 else 0)
  }

  /** The comparator is antisymmetric, and a header marked `asc` gets the
      exact reverse of the order an unmarked or `desc` header gets. */
  lemma CompareReverses(a: Cell, b: Cell)
    ensures Compare(a, b, true) == -Compare(a, b, false)
    ensures Compare(a, b, true) == Compare(b, a, false)
  {
    CellLessAsymmetric(a, b);
  }

  /** `a` is placed before `b` by the comparator. */
  predicate Precedes(a: FrameRecord, b: FrameRecord, col: nat, wasAscending: bool) {
    Compare(Column(a, col), Column(b, col), wasAscending) < 0
  }

  /** No entry is placed after one that should follow it. */
  predicate SortedBy(s: seq<FrameRecord>, col: nat, wasAscending: bool) {
    forall k | 0 < k < |s| :: !Precedes(s[k], s[k - 1], col, wasAscending)
  }

  /** Within one column "does not precede" is transitive, since string and
      flag `<` are strict total orders. */
  lemma NotPrecedesTransitive(a: FrameRecord, b: FrameRecord, c: FrameRecord, col: nat, wasAscending: bool)
    requires !Precedes(b, a, col, wasAscending) && !Precedes(c, b, col, wasAscending)
    ensures !Precedes(c, a, col, wasAscending)
  {
    var x, y, z := Column(a, col), Column(b, col), Column(c, col);
    if x.Text? {
      var (p, q, r) := (x.text, y.text, z.text);
      if wasAscending {
        StringLessTotal(p, q);
        if StringLess(p, r) && StringLess(q, p) {
          StringLessTransitive(q, p, r);
        }
      } else {
        StringLessTotal(q, r);
        if StringLess(r, p) && StringLess(q, r) {
          StringLessTransitive(q, r, p);
        }
      }
    }
  }

  /** An order with no adjacent inversion has no inversion at all. */
  lemma {:induction false} SortedPairwise(s: seq<FrameRecord>, col: nat, wasAscending: bool)
    requires SortedBy(s, col, wasAscending)
    ensures forall i, j | 0 <= i < j < |s| :: !Precedes(s[j], s[i], col, wasAscending)
    decreases |s|
  {
    if |s| > 1 {
      var t := s[..|s| - 1];
      SortedPairwise(t, col, wasAscending);
      forall i | 0 <= i < |s| - 1
        ensures !Precedes(s[|s| - 1], s[i], col, wasAscending)
      {
        if i < |s| - 2 {
          assert !Precedes(s[|s| - 2], s[i], col, wasAscending) by {
            assert t[|s| - 2] == s[|s| - 2] && t[i] == s[i];
          }
          NotPrecedesTransitive(s[i], s[|s| - 2], s[|s| - 1], col, wasAscending);
        }
      }
      forall i, j | 0 <= i < j < |s| - 1
        ensures !Precedes(s[j], s[i], col, wasAscending)
      {
        assert t[i] == s[i] && t[j] == s[j];
      }
    }
  }

  /** Inserts `x` after every leading entry it does not precede. */
  function Insert(x: FrameRecord, s: seq<FrameRecord>, col: nat, wasAscending: bool): (r: seq<FrameRecord>)
    requires SortedBy(s, col, wasAscending)
    ensures SortedBy(r, col, wasAscending)
    ensures multiset(r) == multiset(s) + multiset{x}
    ensures |r| == |s| + 1
    ensures r[0] == x || (s != [] && r[0] == s[0])
  {
    if s == [] then [x]
    else if Precedes(x, s[0], col, wasAscending) then
      CellLessAsymmetric(Column(x, col), Column(s[0], col));
      [x] + s
    else
      var rest := Insert(x, s[1..], col, wasAscending);
      var r := [s[0]] + rest;
      assert r[1..] == rest;
      assert s == [s[0]] + s[1..];
      r
  }

  /** A stable insertion sort by the comparator. */
  function Sort(s: seq<FrameRecord>, col: nat, wasAscending: bool): (r: seq<FrameRecord>)
    ensures SortedBy(r, col, wasAscending)
    ensures multiset(r) == multiset(s)
    decreases |s|
  {
    if s == [] then []
    else
      assert s == s[..|s| - 1] + [s[|s| - 1]];
      Insert(s[|s| - 1], Sort(s[..|s| - 1], col, wasAscending), col, wasAscending)
  }

  /** `sortSniffTable(col)`: `marks` are the header cells' `data-sort`
      attributes. All marks are cleared, the clicked header is marked `desc`
      if it was `asc` and `asc` otherwise, and the store is reordered in the
      direction of the new mark. `None` stands for the TypeError the source
      raises when there is no header at `col`; nothing changes then. */
  function SortSniffTable(store: seq<FrameRecord>, marks: seq<SortMark>, col: nat)
    : (r: Option<(seq<FrameRecord>, seq<SortMark>)>)
    ensures r.None? <==> col >= |marks|
    ensures r.Some? ==>
      var (store', marks') := r.value;
      && multiset(store') == multiset(store)
      && |marks'| == |marks|
      && (forall k | 0 <= k < |marks| && k != col :: marks'[k] == Unmarked)
      && (marks'[col] == Desc <==> marks[col] == Asc)
      && marks'[col] != Unmarked
      && (marks'[col] == Asc ==> forall k | 0 < k < |store'| ::
            !CellLess(Column(store'[k], col), Column(store'[k - 1], col)))
      && (marks'[col] == Desc ==> forall k | 0 < k < |store'| ::
            !CellLess(Column(store'[k - 1], col), Column(store'[k], col)))
  {
    if col >= |marks| then None
    else
      var wasAscending := marks[col] == Asc;
      var marks' := seq(|marks|, k => if k == col then (if wasAscending then Desc else Asc) else Unmarked);
      Some((Sort(store, col, wasAscending), marks'))
  }
}
