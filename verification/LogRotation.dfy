/**
 The log writer: one file per date and serial number, rotated after a line or
 size limit that is checked against counters running one entry late.
 */
module LogRotation {
  datatype Date = Date(year: int, month: int, day: int)

  datatype Name = Name(date: Date, sn: nat)

  type Text = string

  type Files = map<Name, seq<Text>>

  /**
   The writer's fields and its files.  openings lists every name opened, in
   order; lost counts the texts destroyed by opening a name that held some.
   */
  datatype Log = Log(
    date: Date, sn: nat, size: nat, line: nat,
    disk: Files, openings: seq<Name>, lost: nat)

  datatype Limits = Limits(maxLine: int, maxSize: int)

  datatype Entry = Entry(txt: Text, today: Date)

  function Current(s: Log): Name {
    Name(s.date, s.sn)
  }

  /** Opening for output truncates. */
  function OpenFile(s: Log, name: Name): Log {
    s.(disk := s.disk[name := []], openings := s.openings + [name],
       lost := s.lost + if name in s.disk then |s.disk[name]| else 0)
  }

  function NewDay(s: Log, today: Date): Log {
    if today == s.date then s
    else OpenFile(s.(date := today, sn := 0, line := 0, size := 0), Name(today, 0))
  }

  function Append(s: Log, txt: Text): Log {
    var soFar := if Current(s) in s.disk then s.disk[Current(s)] else [];
    s.(disk := s.disk[Current(s) := soFar + [txt]])
  }

  function Rotate(s: Log, limits: Limits): Log {
    if s.line >= limits.maxLine || s.size >= limits.maxSize
    then OpenFile(s.(sn := s.sn + 1, size := 0, line := 0), Name(s.date, s.sn + 1))
    else s
  }

  function Write(s: Log, e: Entry, limits: Limits): Log {
    var s' := Rotate(Append(NewDay(s, e.today), e.txt), limits);
    s'.(size := s'.size + |e.txt|, line := s'.line + 1)
  }

  /** Open file number sn of the day on a disk that already holds some files. */
  function Begin(existing: Files, today: Date, sn: nat): Log {
    OpenFile(Log(today, sn, 0, 0, existing, [], 0), Name(today, sn))
  }

  function WriteAll(start: Log, es: seq<Entry>, limits: Limits): Log {
    if es == [] then start
    else Write(WriteAll(start, es[..|es| - 1], limits), es[|es| - 1], limits)
  }

  /** sn is the least number that no file of the day has. */
  ghost predicate FirstFree(existing: Files, day: Date, sn: nat) {
    Name(day, sn) !in existing && forall k: nat :: k < sn ==> Name(day, k) in existing
  }

  // ------------------------------------------------------------ size bounds

  function Bytes(texts: seq<Text>): nat {
    if texts == [] then 0 else Bytes(texts[..|texts| - 1]) + |texts[|texts| - 1]|
  }

  lemma {:induction false} BytesSnoc(texts: seq<Text>, txt: Text)
    ensures Bytes(texts + [txt]) == Bytes(texts) + |txt|
  {
    assert (texts + [txt])[..|texts|] == texts;
  }

  ghost predicate FileInBounds(texts: seq<Text>, limits: Limits, longest: nat) {
    |texts| <= limits.maxLine + 1 && Bytes(texts) < limits.maxSize + 2 * longest
  }

  ghost predicate OpenedInBounds(s: Log, limits: Limits, longest: nat) {
    forall name :: name in s.openings ==> name in s.disk && FileInBounds(s.disk[name], limits, longest)
  }

  /** The counters are behind the open file by at most the one entry that caused its opening. */
  ghost predicate Counted(s: Log, limits: Limits, longest: nat) {
    && Current(s) in s.disk
    && |s.disk[Current(s)]| <= s.line <= |s.disk[Current(s)]| + 1
    && Bytes(s.disk[Current(s)]) <= s.size <= Bytes(s.disk[Current(s)]) + longest
    && s.line <= limits.maxLine && s.size < limits.maxSize + longest
    && OpenedInBounds(s, limits, longest)
  }

  lemma {:induction false} NewDayIsCounted(s: Log, today: Date, limits: Limits, longest: nat)
    requires Counted(s, limits, longest) && limits.maxLine > 0 && limits.maxSize > 0
    ensures Counted(NewDay(s, today), limits, longest)
  {
  }

  lemma {:induction false} AppendIsInBounds(s: Log, txt: Text, limits: Limits, longest: nat)
    requires Counted(s, limits, longest) && |txt| <= longest
    ensures var s' := Append(s, txt);
            && |s'.disk[Current(s)]| == |s.disk[Current(s)]| + 1
            && Bytes(s'.disk[Current(s)]) == Bytes(s.disk[Current(s)]) + |txt|
            && OpenedInBounds(s', limits, longest)
  {
    BytesSnoc(s.disk[Current(s)], txt);
  }

  lemma {:induction false} RotateIsCounted(s: Log, txt: Text, limits: Limits, longest: nat)
    requires Counted(s, limits, longest) && limits.maxLine > 0 && limits.maxSize > 0 && |txt| <= longest
    ensures var s' := Rotate(Append(s, txt), limits);
            Counted(s'.(size := s'.size + |txt|, line := s'.line + 1), limits, longest)
  {
    hide Append, Bytes;
    AppendIsInBounds(s, txt, limits, longest);
    AppendFrame(s, txt);
    assert FileInBounds([], limits, longest) && Bytes([]) == 0 by {
      EmptyInBounds(limits, longest);
    }
  }

  lemma {:induction false} AppendFrame(s: Log, txt: Text)
    ensures var s' := Append(s, txt);
            && s'.date == s.date && s'.sn == s.sn && s'.line == s.line && s'.size == s.size
            && s'.openings == s.openings && Current(s) in s'.disk
  {
  }

  lemma {:induction false} EmptyInBounds(limits: Limits, longest: nat)
    requires limits.maxLine > 0 && limits.maxSize > 0
    ensures FileInBounds([], limits, longest) && Bytes([]) == 0
  {
  }

  lemma {:induction false} WriteKeepsBounds(s: Log, e: Entry, limits: Limits, longest: nat)
    requires Counted(s, limits, longest) && limits.maxLine > 0 && limits.maxSize > 0 && |e.txt| <= longest
    ensures Counted(Write(s, e, limits), limits, longest)
  {
    hide Counted, Append, Rotate, NewDay;
    NewDayIsCounted(s, e.today, limits, longest);
    RotateIsCounted(NewDay(s, e.today), e.txt, limits, longest);
  }

  /** Every file ever opened holds at most one line and two texts' worth of bytes over its limits. */
  lemma {:induction false} FilesAreBounded(
      existing: Files, today: Date, sn: nat, es: seq<Entry>, limits: Limits, longest: nat)
    requires limits.maxLine > 0 && limits.maxSize > 0
    requires forall i :: 0 <= i < |es| ==> |es[i].txt| <= longest
    ensures var s := WriteAll(Begin(existing, today, sn), es, limits);
            forall name :: name in s.openings ==>
              && name in s.disk && |s.disk[name]| <= limits.maxLine + 1
              && Bytes(s.disk[name]) < limits.maxSize + 2 * longest
  {
    CountersHold(existing, today, sn, es, limits, longest);
  }

  lemma {:induction false} CountersHold(
      existing: Files, today: Date, sn: nat, es: seq<Entry>, limits: Limits, longest: nat)
    requires limits.maxLine > 0 && limits.maxSize > 0
    requires forall i :: 0 <= i < |es| ==> |es[i].txt| <= longest
    ensures Counted(WriteAll(Begin(existing, today, sn), es, limits), limits, longest)
  {
    hide Counted, Write, Begin;
    if es == [] {
      BeginIsCounted(existing, today, sn, limits, longest);
    } else {
      var n := |es| - 1;
      CountersHold(existing, today, sn, es[..n], limits, longest);
      WriteKeepsBounds(WriteAll(Begin(existing, today, sn), es[..n], limits), es[n], limits, longest);
    }
  }

  lemma {:induction false} BeginIsCounted(existing: Files, today: Date, sn: nat, limits: Limits, longest: nat)
    requires limits.maxLine > 0 && limits.maxSize > 0
    ensures Counted(Begin(existing, today, sn), limits, longest)
  {
  }

  // -------------------------------------------------- dates that never return

  ghost predicate Written(es: seq<Entry>, d: Date) {
    exists i :: 0 <= i < |es| && es[i].today == d
  }

  /** d is one of the dates left behind earlier, or something has been written on it. */
  ghost predicate Seen(left: set<Date>, es: seq<Entry>, d: Date) {
    d in left || Written(es, d)
  }

  /** The date the writer is on after es. */
  function LastDate(today: Date, es: seq<Entry>): Date {
    if es == [] then today else es[|es| - 1].today
  }

  ghost predicate StaysOrMovesOn(left: set<Date>, today: Date, es: seq<Entry>, d: Date) {
    d == LastDate(today, es) || !Seen(left, es, d)
  }

  /** From today on, no date is written on once it has been left, those in left included. */
  ghost predicate NeverReturns(left: set<Date>, today: Date, es: seq<Entry>) {
    forall k :: 0 <= k < |es| ==> StaysOrMovesOn(left, today, es[..k], es[k].today)
  }

  lemma {:induction false} SeenSnoc(left: set<Date>, es: seq<Entry>, e: Entry)
    ensures forall d :: Seen(left, es + [e], d) <==> Seen(left, es, d) || d == e.today
    ensures LastDate(e.today, es + [e]) == e.today
  {
    assert (es + [e])[|es|] == e;
    forall d | Written(es, d)
      ensures Written(es + [e], d)
    {
      var i :| 0 <= i < |es| && es[i].today == d;
      assert (es + [e])[i] == es[i];
    }
  }

  lemma {:induction false} NeverReturnsSnoc(left: set<Date>, today: Date, es: seq<Entry>, e: Entry)
    ensures NeverReturns(left, today, es + [e]) <==>
              NeverReturns(left, today, es) && StaysOrMovesOn(left, today, es, e.today)
  {
    var longer, n := es + [e], |es|;
    assert longer[..n] == es && longer[n] == e;
    assert forall k :: 0 <= k < n ==> longer[..k] == es[..k] && longer[k] == es[k];
    hide StaysOrMovesOn;
  }

  lemma {:induction false} NeverReturnsAtFirst(left: set<Date>, today: Date)
    ensures NeverReturns(left, today, [])
  {
  }

  lemma {:induction false} WriteMovesTo(s: Log, e: Entry, limits: Limits)
    ensures Write(s, e, limits).date == e.today
    ensures Current(s) in s.disk ==> Current(Write(s, e, limits)) in Write(s, e, limits).disk
    ensures NewDay(s, e.today).openings <= Write(s, e, limits).openings
  {
  }

  // ---------------------------------------------------------------- content

  /** The files' texts, in the order the files were opened. */
  function Contents(openings: seq<Name>, disk: Files): seq<Text> {
    if openings == [] then []
    else
      var n := |openings| - 1;
      Contents(openings[..n], disk) + if openings[n] in disk then disk[openings[n]] else []
  }

  function Texts(es: seq<Entry>): seq<Text> {
    if es == [] then [] else Texts(es[..|es| - 1]) + [es[|es| - 1].txt]
  }

  ghost predicate OpenedOnce(openings: seq<Name>) {
    forall i, j :: 0 <= i < j < |openings| ==> openings[i] != openings[j]
  }

  lemma {:induction false} OtherFilesDoNotMatter(openings: seq<Name>, a: Files, b: Files)
    requires forall name :: name in openings ==> (name in a <==> name in b) && (name in a ==> a[name] == b[name])
    ensures Contents(openings, a) == Contents(openings, b)
  {
    if openings == [] {
    } else {
      var n := |openings| - 1;
      assert openings[n] in openings && forall name :: name in openings[..n] ==> name in openings;
      OtherFilesDoNotMatter(openings[..n], a, b);
    }
  }

  /** The names opened are all different, and their files together hold exactly texts. */
  ghost predicate Holds(s: Log, texts: seq<Text>) {
    && OpenedOnce(s.openings) && s.openings != [] && s.openings[|s.openings| - 1] == Current(s)
    && (forall name :: name in s.openings ==> name in s.disk)
    && Contents(s.openings, s.disk) == texts
  }

  lemma {:induction false} OpenHolds(s: Log, name: Name, texts: seq<Text>, line: nat, size: nat)
    requires Holds(s, texts) && name !in s.openings
    ensures var s' := OpenFile(s.(date := name.date, sn := name.sn, line := line, size := size), name);
            Holds(s', texts)
  {
    var s' := OpenFile(s, name);
    assert s'.openings[..|s.openings|] == s.openings;
    OtherFilesDoNotMatter(s.openings, s.disk, s'.disk);
  }

  lemma {:induction false} AppendHolds(s: Log, txt: Text, texts: seq<Text>)
    requires Holds(s, texts)
    ensures Holds(Append(s, txt), texts + [txt])
  {
    var s', n := Append(s, txt), |s.openings| - 1;
    var before := s.openings[..n];
    assert Current(s) in s.openings && Current(s) !in before;
    OtherFilesDoNotMatter(before, s.disk, s'.disk);
    assert Contents(before, s.disk) + (s.disk[Current(s)] + [txt]) ==
           Contents(before, s.disk) + s.disk[Current(s)] + [txt];
  }

  /** The names opened are of dates seen since the start. */
  ghost predicate Visited(s: Log, today: Date, es: seq<Entry>) {
    && s.date == LastDate(today, es) && Seen({today}, es, s.date)
    && (forall name :: name in s.openings ==> Seen({today}, es, name.date))
  }

  /** Every date seen since the start has had its file number zero opened. */
  ghost predicate OpenedZero(s: Log, today: Date, es: seq<Entry>) {
    forall d :: Seen({today}, es, d) ==> Name(d, 0) in s.openings
  }

  /** The open file is the last of its day to be opened. */
  ghost predicate HighestOpened(s: Log) {
    forall name :: name in s.openings && name.date == s.date ==> name.sn <= s.sn
  }

  lemma {:induction false} NewDayIsVisited(s: Log, today: Date, es: seq<Entry>, e: Entry)
    requires Visited(s, today, es)
    ensures Visited(Append(NewDay(s, e.today), e.txt), today, es + [e])
    ensures OpenedZero(s, today, es) ==> OpenedZero(Append(NewDay(s, e.today), e.txt), today, es + [e])
  {
    hide Seen;
    SeenSnoc({today}, es, e);
    assert (es + [e])[|es|] == e;
    var s0 := NewDay(s, e.today);
    assert forall name :: name in s0.openings <==>
        name in s.openings || (e.today != s.date && name == Name(e.today, 0));
  }

  lemma {:induction false} RotateIsVisited(s: Log, today: Date, es: seq<Entry>, limits: Limits, k: nat)
    requires Visited(s, today, es)
    ensures var s' := Rotate(s, limits);
            && Visited(s'.(size := s'.size + k, line := s'.line + 1), today, es)
            && (OpenedZero(s, today, es) ==> OpenedZero(s'.(size := s'.size + k, line := s'.line + 1), today, es))
  {
    hide Seen;
    var name := Name(s.date, s.sn + 1);
    assert forall n :: n in s.openings + [name] <==> n in s.openings || n == name;
  }

  lemma {:induction false} WriteIsVisited(s: Log, today: Date, es: seq<Entry>, e: Entry, limits: Limits)
    requires Visited(s, today, es)
    ensures Visited(Write(s, e, limits), today, es + [e])
    ensures OpenedZero(s, today, es) ==> OpenedZero(Write(s, e, limits), today, es + [e])
  {
    hide Visited, OpenedZero, NewDay, Append, Rotate;
    NewDayIsVisited(s, today, es, e);
    RotateIsVisited(Append(NewDay(s, e.today), e.txt), today, es + [e], limits, |e.txt|);
  }

  lemma {:induction false} NewDayHolds(s: Log, today: Date, es: seq<Entry>, e: Entry, texts: seq<Text>)
    requires Visited(s, today, es) && HighestOpened(s) && Holds(s, texts)
    requires StaysOrMovesOn({today}, today, es, e.today)
    ensures Holds(NewDay(s, e.today), texts) && HighestOpened(NewDay(s, e.today))
  {
    hide Seen, Holds;
    if e.today != s.date {
      OpenHolds(s, Name(e.today, 0), texts, 0, 0);
    }
  }

  lemma {:induction false} WriteHolds(
      s: Log, today: Date, es: seq<Entry>, e: Entry, limits: Limits, texts: seq<Text>)
    requires Visited(s, today, es) && HighestOpened(s) && Holds(s, texts)
    requires StaysOrMovesOn({today}, today, es, e.today)
    ensures Holds(Write(s, e, limits), texts + [e.txt]) && HighestOpened(Write(s, e, limits))
  {
    hide StaysOrMovesOn, Visited, Holds, NewDay, Append;
    NewDayHolds(s, today, es, e, texts);
    AppendHolds(NewDay(s, e.today), e.txt, texts);
    var s1 := Append(NewDay(s, e.today), e.txt);
    AppendFrame(NewDay(s, e.today), e.txt);
    if s1.line >= limits.maxLine || s1.size >= limits.maxSize {
      OpenHolds(s1, Name(s1.date, s1.sn + 1), texts + [e.txt], 0, 0);
    }
    HoldsWhateverCounted(Rotate(s1, limits), texts + [e.txt], |e.txt|);
  }

  lemma {:induction false} HoldsWhateverCounted(s: Log, texts: seq<Text>, k: nat)
    requires Holds(s, texts)
    ensures Holds(s.(size := s.size + k, line := s.line + 1), texts)
  {
  }

  lemma {:induction false} ReopensExactly(s: Log, today: Date, es: seq<Entry>, e: Entry, limits: Limits)
    requires Visited(s, today, es) && OpenedZero(s, today, es) && !StaysOrMovesOn({today}, today, es, e.today)
    ensures !OpenedOnce(Write(s, e, limits).openings)
  {
    WriteMovesTo(s, e, limits);
    hide Seen, Write;
    var name, n, later := Name(e.today, 0), |s.openings|, Write(s, e, limits).openings;
    var i :| 0 <= i < n && s.openings[i] == name;
    assert NewDay(s, e.today).openings == s.openings + [name];
    assert later[i] == (s.openings + [name])[i] && later[n] == (s.openings + [name])[n];
  }

  lemma {:induction false} LongerStaysReopened(s: Log, e: Entry, limits: Limits)
    requires !OpenedOnce(s.openings)
    ensures !OpenedOnce(Write(s, e, limits).openings)
  {
    var later := Write(s, e, limits).openings;
    assert s.openings <= later;
    var i, j :| 0 <= i < j < |s.openings| && s.openings[i] == s.openings[j];
    assert later[i] == later[j];
  }

  lemma {:induction false} BeginIsVisited(existing: Files, today: Date, sn: nat)
    ensures var s := Begin(existing, today, sn);
            && Visited(s, today, []) && HighestOpened(s) && (sn == 0 ==> OpenedZero(s, today, []))
  {
  }

  lemma {:induction false} BeginHolds(existing: Files, today: Date, sn: nat)
    ensures Holds(Begin(existing, today, sn), [])
  {
    var s := Begin(existing, today, sn);
    assert s.openings == [Name(today, sn)] && s.openings[..0] == [] && Contents([], s.disk) == [];
    assert Contents(s.openings, s.disk) == Contents(s.openings[..0], s.disk) + [];
  }

  /**
   On dates that never return, the starting date included, no name is opened
   twice and the files, in opening order, hold exactly the texts, whatever was
   on the disk before.
   */
  lemma {:induction false} FilesAreTheLog(
      existing: Files, today: Date, sn: nat, es: seq<Entry>, limits: Limits)
    requires NeverReturns({today}, today, es)
    ensures var s := WriteAll(Begin(existing, today, sn), es, limits);
            && OpenedOnce(s.openings) && Contents(s.openings, s.disk) == Texts(es)
            && Holds(s, Texts(es)) && HighestOpened(s) && Visited(s, today, es)
  {
    assert var s := WriteAll(Begin(existing, today, sn), es, limits);
        Holds(s, Texts(es)) && HighestOpened(s) && Visited(s, today, es) by {
      hide NeverReturns, Write, Visited, HighestOpened, Holds, Begin;
      if es == [] {
        BeginIsVisited(existing, today, sn);
        BeginHolds(existing, today, sn);
      } else {
        var n := |es| - 1;
        var s := WriteAll(Begin(existing, today, sn), es[..n], limits);
        assert es == es[..n] + [es[n]];
        NeverReturnsSnoc({today}, today, es[..n], es[n]);
        FilesAreTheLog(existing, today, sn, es[..n], limits);
        WriteIsVisited(s, today, es[..n], es[n], limits);
        WriteHolds(s, today, es[..n], es[n], limits, Texts(es[..n]));
      }
    }
  }

  lemma {:induction false} ZeroIsOpened(existing: Files, today: Date, es: seq<Entry>, limits: Limits)
    ensures var s := WriteAll(Begin(existing, today, 0), es, limits);
            && Visited(s, today, es) && OpenedZero(s, today, es)
            && (!NeverReturns({today}, today, es) ==> !OpenedOnce(s.openings))
  {
    hide NeverReturns, Write, Visited, OpenedZero, OpenedOnce, Begin;
    if es == [] {
      BeginIsVisited(existing, today, 0);
      NeverReturnsAtFirst({today}, today);
    } else {
      var n := |es| - 1;
      var s := WriteAll(Begin(existing, today, 0), es[..n], limits);
      assert es == es[..n] + [es[n]];
      NeverReturnsSnoc({today}, today, es[..n], es[n]);
      ZeroIsOpened(existing, today, es[..n], limits);
      WriteIsVisited(s, today, es[..n], es[n], limits);
      if !NeverReturns({today}, today, es[..n]) {
        LongerStaysReopened(s, es[n], limits);
      } else if !StaysOrMovesOn({today}, today, es[..n], es[n].today) {
        ReopensExactly(s, today, es[..n], es[n], limits);
      }
    }
  }

  /** Begun with the first file of a day, the writer opens a name twice exactly when a date returns. */
  lemma {:induction false} OpenedOnceIff(existing: Files, today: Date, es: seq<Entry>, limits: Limits)
    ensures OpenedOnce(WriteAll(Begin(existing, today, 0), es, limits).openings) <==> NeverReturns({today}, today, es)
  {
    hide NeverReturns, OpenedOnce, Begin;
    ZeroIsOpened(existing, today, es, limits);
    if NeverReturns({today}, today, es) {
      FilesAreTheLog(existing, today, 0, es, limits);
    }
  }

  // ------------------------------------------------- no rotation before time

  /** Full up to the entry by which the counters run ahead of a rotated file. */
  ghost predicate Full(texts: seq<Text>, limits: Limits, longest: nat) {
    |texts| >= limits.maxLine || Bytes(texts) + longest >= limits.maxSize
  }

  predicate Follows(name: Name, next: Name) {
    next == Name(name.date, name.sn + 1)
  }

  ghost predicate RotatedAreFull(s: Log, limits: Limits, longest: nat) {
    forall name, next :: name in s.openings && next in s.openings && Follows(name, next) ==>
      name in s.disk && Full(s.disk[name], limits, longest)
  }

  lemma {:induction false} NewDayKeepsFull(
      s: Log, today: Date, es: seq<Entry>, e: Entry, limits: Limits, longest: nat)
    requires Visited(s, today, es) && RotatedAreFull(s, limits, longest)
    requires StaysOrMovesOn({today}, today, es, e.today)
    ensures RotatedAreFull(NewDay(s, e.today), limits, longest)
  {
    hide Seen, Full;
  }

  lemma {:induction false} RotateKeepsFull(s: Log, txt: Text, limits: Limits, longest: nat, k: nat)
    requires Counted(s, limits, longest) && HighestOpened(s) && RotatedAreFull(s, limits, longest)
    ensures var s' := Rotate(Append(s, txt), limits);
            RotatedAreFull(s'.(size := s'.size + k, line := s'.line + 1), limits, longest)
  {
    hide Full, Counted, Bytes;
    CountedFileIsFull(s, txt, limits, longest);
  }

  lemma {:induction false} CountedFileIsFull(s: Log, txt: Text, limits: Limits, longest: nat)
    requires Counted(s, limits, longest)
    ensures Current(s) in s.disk
    ensures s.line >= limits.maxLine || s.size >= limits.maxSize ==> Full(s.disk[Current(s)] + [txt], limits, longest)
  {
    BytesSnoc(s.disk[Current(s)], txt);
  }

  /** On dates that never return the writer leaves a file for the next number only once it is full. */
  lemma {:induction false} NoEarlyRotation(
      existing: Files, today: Date, sn: nat, es: seq<Entry>, limits: Limits, longest: nat)
    requires limits.maxLine > 0 && limits.maxSize > 0 && NeverReturns({today}, today, es)
    requires forall i :: 0 <= i < |es| ==> |es[i].txt| <= longest
    ensures RotatedAreFull(WriteAll(Begin(existing, today, sn), es, limits), limits, longest)
  {
    hide NeverReturns, Visited, Counted, HighestOpened, Holds, RotatedAreFull, NewDay, Append, Rotate, Begin;
    if es == [] {
      BeginIsNotRotated(existing, today, sn, limits, longest);
    } else {
      var n := |es| - 1;
      var before, e := es[..n], es[n];
      var s := WriteAll(Begin(existing, today, sn), before, limits);
      assert es == before + [e];
      NeverReturnsSnoc({today}, today, before, e);
      FilesAreTheLog(existing, today, sn, before, limits);
      NoEarlyRotation(existing, today, sn, before, limits, longest);
      NewDayKeepsFull(s, today, before, e, limits, longest);
      NewDayHolds(s, today, before, e, Texts(before));
      CountersHold(existing, today, sn, before, limits, longest);
      NewDayIsCounted(s, e.today, limits, longest);
      RotateKeepsFull(NewDay(s, e.today), e.txt, limits, longest, |e.txt|);
    }
  }

  lemma {:induction false} BeginIsNotRotated(existing: Files, today: Date, sn: nat, limits: Limits, longest: nat)
    ensures RotatedAreFull(Begin(existing, today, sn), limits, longest)
  {
  }

  // -------------------------------------------------------------- the writer

  class LogWriter {
    const limits: Limits
    var curDate: Date
    var curSn: nat
    var curSize: nat
    var curLine: nat
    var disk: Files
    ghost var openings: seq<Name>
    ghost var lost: nat

    ghost function View(): Log
      reads this
    {
      Log(curDate, curSn, curSize, curLine, disk, openings, lost)
    }

    /** The number the first file of the day gets: the least that no file has yet. */
    static method FirstFreeSn(day: Date, existing: Files) returns (sn: nat)
      ensures FirstFree(existing, day, sn)
    {
      sn := 0;
      while Name(day, sn) in existing
        invariant forall k: nat :: k < sn ==> Name(day, k) in existing
        decreases existing.Keys - set k: nat | k < sn :: Name(day, k)
      {
        assert Name(day, sn) in existing.Keys - set k: nat | k < sn :: Name(day, k);
        sn := sn + 1;
      }
    }

    constructor (limits: Limits, today: Date, existing: Files)
      ensures this.limits == limits && FirstFree(existing, today, curSn)
      ensures View() == Begin(existing, today, curSn)
    {
      this.limits := limits;
      curDate, curSize, curLine := today, 0, 0;
      var sn := FirstFreeSn(today, existing);
      curSn := sn;
      disk := existing[Name(today, sn) := []];
      openings, lost := [Name(today, sn)], 0;
    }

    method Open(name: Name)
      modifies this`disk, this`openings, this`lost
      ensures View() == OpenFile(old(View()), name)
    {
      if name in disk {
        lost := lost + |disk[name]|;
      }
      disk := disk[name := []];
      openings := openings + [name];
    }

    /** Leave yesterday's file. */
    method EnterDay(today: Date)
      modifies this
      ensures View() == NewDay(old(View()), today)
    {
      if today != curDate {
        curDate := today;
        curSn := 0;
        curLine := 0;
        curSize := 0;
        Open(Name(curDate, curSn));
      }
    }

    method WriteText(txt: Text)
      modifies this`disk
      ensures View() == Append(old(View()), txt)
    {
      var name := Name(curDate, curSn);
      disk := disk[name := (if name in disk then disk[name] else []) + [txt]];
    }

    method RotateIfDue()
      modifies this`curSn, this`curSize, this`curLine, this`disk, this`openings, this`lost
      ensures View() == Rotate(old(View()), limits)
    {
      if curLine >= limits.maxLine || curSize >= limits.maxSize {
        curSn := curSn + 1;
        curSize := 0;
        curLine := 0;
        Open(Name(curDate, curSn));
      }
    }

    method HandleWriteFile(txt: Text, today: Date)
      modifies this
      ensures View() == Write(old(View()), Entry(txt, today), limits)
    {
      hide NewDay, Append, Rotate;
      EnterDay(today);
      WriteText(txt);
      RotateIfDue();
      curSize := curSize + |txt|;
      curLine := curLine + 1;
    }
  }
}
