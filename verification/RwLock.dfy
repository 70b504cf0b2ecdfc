/** The readers/writer lock of Include/rwlock_simple.hpp, built from two mutexes that hand over
    in order of arrival (kernel/task/mutex.cpp).

    Any number of tasks run it, interleaved in any way. One step is what a task does between
    two points at which it can be interrupted: a call of Acquire or Release on a mutex (each
    runs under its own spinlock), or one access to ReaderCount. */
module RwLocks {
  import opened Basics

  /** Where a task stands. */
  datatype Pc =
    | Outside
    // AcquireRead
    | QueuedToEnter     // waits for ReaderLock
    | Entering          // has ReaderLock, has not counted itself
    | Counted           // has counted itself, has not looked at the count
    | QueuedForGlobal   // waits for GlobalLock with ReaderLock in hand
    | Entered           // the readers have GlobalLock, ReaderLock still to be released
    | Reading
    // ReleaseRead
    | QueuedToLeave     // waits for ReaderLock
    | Leaving           // has ReaderLock, still counted
    | Uncounted         // no longer counted, has not looked at the count
    | Left              // has only ReaderLock to release
    // AcquireWrite
    | QueuedToWrite     // waits for GlobalLock
    | Writing

  datatype Lock<T> = Lock(locked: bool, owner: Option<T>, queue: seq<T>)

  datatype State<T> = State(pc: map<T, Pc>, reader: Lock<T>, global: Lock<T>, count: int)

  /** What a task outside wants next. */
  datatype Want = ToRead | ToWrite

  predicate WaitsForReader(c: Pc) { c.QueuedToEnter? || c.QueuedToLeave? }
  predicate WaitsForGlobal(c: Pc) { c.QueuedForGlobal? || c.QueuedToWrite? }
  predicate Blocked(c: Pc) { WaitsForReader(c) || WaitsForGlobal(c) }

  predicate HasReader(c: Pc) {
    c.Entering? || c.Counted? || c.QueuedForGlobal? || c.Entered? || c.Leaving? || c.Uncounted? || c.Left?
  }

  /** The reader is included in ReaderCount. */
  predicate IsCounted(c: Pc) {
    c.Counted? || c.QueuedForGlobal? || c.Entered? || c.Reading? || c.QueuedToLeave? || c.Leaving?
  }

  /** The readers hold GlobalLock together while one of them stands here. */
  predicate Inside(c: Pc) {
    c.Entered? || c.Reading? || c.QueuedToLeave? || c.Leaving? || c.Uncounted?
  }

  // ----- steps

  /** Where Acquire returns to. */
  function Granted(c: Pc): Pc {
    match c
    case QueuedToEnter => Entering
    case QueuedForGlobal => Entered
    case QueuedToLeave => Leaving
    case QueuedToWrite => Writing
    case _ => c
  }

  function Taken<T>(l: Lock<T>, t: T): Lock<T> {
    if l.locked then l.(queue := l.queue + [t]) else l.(locked := true, owner := Some(t))
  }

  function Released<T>(l: Lock<T>): Lock<T> {
    if l.queue != [] then l.(owner := Some(l.queue[0]), queue := l.queue[1..]) else l.(locked := false, owner := None)
  }

  /** The program counters after l has been released: its first waiter goes on. */
  function Resumed<T>(pc: map<T, Pc>, l: Lock<T>): map<T, Pc> {
    if l.queue != [] && l.queue[0] in pc then pc[l.queue[0] := Granted(pc[l.queue[0]])] else pc
  }

  function AcquireReader<T>(s: State<T>, t: T, queued: Pc, got: Pc): State<T> {
    s.(pc := s.pc[t := if s.reader.locked then queued else got], reader := Taken(s.reader, t))
  }

  function AcquireGlobal<T>(s: State<T>, t: T, queued: Pc, got: Pc): State<T> {
    s.(pc := s.pc[t := if s.global.locked then queued else got], global := Taken(s.global, t))
  }

  function ReleaseReader<T>(s: State<T>, t: T, to: Pc): State<T> {
    s.(pc := Resumed(s.pc, s.reader)[t := to], reader := Released(s.reader))
  }

  function ReleaseGlobal<T>(s: State<T>, t: T, to: Pc): State<T> {
    s.(pc := Resumed(s.pc, s.global)[t := to], global := Released(s.global))
  }

  /** One step of task t. A blocked task has none. */
  function Step<T(==)>(s: State<T>, t: T, want: Want): State<T>
    requires t in s.pc
  {
    match s.pc[t]
    case Outside =>
      if want.ToRead? then AcquireReader(s, t, QueuedToEnter, Entering) else AcquireGlobal(s, t, QueuedToWrite, Writing)
    case Entering => s.(count := s.count + 1, pc := s.pc[t := Counted])
    case Counted =>
      if s.count == 1 then AcquireGlobal(s, t, QueuedForGlobal, Entered) else s.(pc := s.pc[t := Entered])
    case Entered => ReleaseReader(s, t, Reading)
    case Reading => AcquireReader(s, t, QueuedToLeave, Leaving)
    case Leaving => s.(count := s.count - 1, pc := s.pc[t := Uncounted])
    case Uncounted => if s.count == 0 then ReleaseGlobal(s, t, Left) else s.(pc := s.pc[t := Left])
    case Left => ReleaseReader(s, t, Outside)
    case Writing => ReleaseGlobal(s, t, Outside)
    case _ => s
  }

  // ----- the invariant

  /** The queue of a lock holds exactly the tasks that wait for it, each once. */
  ghost predicate LineOk<T>(pc: map<T, Pc>, l: Lock<T>, waits: Pc -> bool) {
    && NoDuplicates(l.queue) && (!l.locked ==> l.queue == [] && l.owner.None?)
    && (forall t <- l.queue :: t in pc && waits(pc[t]))
    && (forall t <- pc :: waits(pc[t]) ==> t in l.queue)
  }

  /** ReaderLock is locked while a task stands where it has it, and its owner is that task. */
  ghost predicate ReaderOk<T>(pc: map<T, Pc>, l: Lock<T>) {
    && (l.locked ==> l.owner.Some? && l.owner.value in pc && HasReader(pc[l.owner.value]))
    && (forall t <- pc :: HasReader(pc[t]) ==> l.locked && l.owner == Some(t))
  }

  /** GlobalLock is locked while a writer has it or the readers have it, never both; a writer
      is its owner. */
  ghost predicate GlobalOk<T>(pc: map<T, Pc>, l: Lock<T>) {
    && (l.locked ==> exists t :: t in pc && (pc[t].Writing? || Inside(pc[t])))
    && (forall t <- pc :: pc[t].Writing? ==> l.locked && l.owner == Some(t))
    && (forall t <- pc :: Inside(pc[t]) ==> l.locked)
    && (forall t, u :: t in pc && u in pc && pc[t].Writing? ==> !Inside(pc[u]))
  }

  ghost function Readers<T>(pc: map<T, Pc>): set<T> {
    set t | t in pc && IsCounted(pc[t])
  }

  /** ReaderCount counts the readers; one that waits for GlobalLock is the only one. */
  ghost predicate CountOk<T>(pc: map<T, Pc>, count: int) {
    && count == |Readers(pc)|
    && (forall t, u :: t in pc && u in pc && pc[t].QueuedForGlobal? && u != t ==> !IsCounted(pc[u]))
  }

  ghost predicate Inv<T>(s: State<T>) {
    && LineOk(s.pc, s.reader, WaitsForReader) && ReaderOk(s.pc, s.reader)
    && LineOk(s.pc, s.global, WaitsForGlobal) && GlobalOk(s.pc, s.global)
    && CountOk(s.pc, s.count)
  }

  /** All tasks outside and both mutexes free: where every run starts. */
  ghost predicate Initial<T>(s: State<T>) {
    && (forall t <- s.pc :: s.pc[t].Outside?)
    && s.reader == s.global == Lock(false, None, []) && s.count == 0
  }

  lemma InitialInv<T>(s: State<T>)
    requires Initial(s)
    ensures Inv(s)
  {
    assert Readers(s.pc) == {};
  }

  // ----- one lock at a time

  lemma LineStays<T>(pc: map<T, Pc>, l: Lock<T>, waits: Pc -> bool, t: T, c: Pc)
    requires LineOk(pc, l, waits) && t in pc && waits(pc[t]) == waits(c)
    ensures LineOk(pc[t := c], l, waits)
  {
  }

  lemma LineTaken<T>(pc: map<T, Pc>, l: Lock<T>, waits: Pc -> bool, t: T, queued: Pc, got: Pc)
    requires LineOk(pc, l, waits) && t in pc && !waits(pc[t]) && waits(queued) && !waits(got)
    ensures LineOk(pc[t := if l.locked then queued else got], Taken(l, t), waits)
  {
  }

  lemma LineReleased<T>(pc: map<T, Pc>, l: Lock<T>, waits: Pc -> bool, t: T, c: Pc)
    requires LineOk(pc, l, waits) && t in pc && !waits(pc[t]) && !waits(c)
    requires forall w <- l.queue :: !waits(Granted(pc[w]))
    ensures LineOk(Resumed(pc, l)[t := c], Released(l), waits)
  {
    if l.queue != [] {
      assert l.queue == [l.queue[0]] + l.queue[1..];
      assert l.queue[0] in l.queue;
    }
  }

  lemma ReaderStays<T>(pc: map<T, Pc>, l: Lock<T>, t: T, c: Pc)
    requires ReaderOk(pc, l) && t in pc && HasReader(pc[t]) == HasReader(c)
    ensures ReaderOk(pc[t := c], l)
  {
  }

  lemma ReaderTaken<T>(pc: map<T, Pc>, l: Lock<T>, t: T, queued: Pc, got: Pc)
    requires ReaderOk(pc, l) && t in pc && !HasReader(pc[t]) && !HasReader(queued) && HasReader(got)
    ensures ReaderOk(pc[t := if l.locked then queued else got], Taken(l, t))
  {
  }

  lemma ReaderReleased<T>(pc: map<T, Pc>, l: Lock<T>, t: T, c: Pc)
    requires ReaderOk(pc, l) && LineOk(pc, l, WaitsForReader) && t in pc && HasReader(pc[t]) && !HasReader(c)
    ensures ReaderOk(Resumed(pc, l)[t := c], Released(l))
  {
    if l.queue != [] { assert l.queue[0] in l.queue; }
  }

  lemma GlobalStays<T>(pc: map<T, Pc>, l: Lock<T>, t: T, c: Pc)
    requires GlobalOk(pc, l) && t in pc && Inside(pc[t]) == Inside(c) && pc[t].Writing? == c.Writing?
    ensures GlobalOk(pc[t := c], l)
  {
    if l.locked {
      var u :| u in pc && (pc[u].Writing? || Inside(pc[u]));
      assert u in pc[t := c];
    }
  }

  /** A reader comes in or goes out while another is inside. */
  lemma GlobalShared<T>(pc: map<T, Pc>, l: Lock<T>, t: T, c: Pc, u: T)
    requires GlobalOk(pc, l) && t in pc && u in pc && u != t && Inside(pc[u]) && !pc[t].Writing? && !c.Writing?
    ensures GlobalOk(pc[t := c], l)
  {
    assert u in pc[t := c] && Inside(pc[t := c][u]);
  }

  lemma GlobalTaken<T>(pc: map<T, Pc>, l: Lock<T>, t: T, queued: Pc, got: Pc)
    requires GlobalOk(pc, l) && t in pc && !Inside(pc[t]) && !pc[t].Writing?
    requires !Inside(queued) && !queued.Writing? && (Inside(got) || got.Writing?)
    ensures GlobalOk(pc[t := if l.locked then queued else got], Taken(l, t))
  {
    var pc' := pc[t := if l.locked then queued else got];
    assert t in pc';
    if l.locked {
      var u :| u in pc && (pc[u].Writing? || Inside(pc[u]));
      assert u in pc';
    }
  }

  lemma GlobalReleased<T>(pc: map<T, Pc>, l: Lock<T>, t: T, c: Pc)
    requires GlobalOk(pc, l) && LineOk(pc, l, WaitsForGlobal) && t in pc && (Inside(pc[t]) || pc[t].Writing?)
    requires !Inside(c) && !c.Writing? && forall u <- pc :: u != t ==> !Inside(pc[u])
    ensures GlobalOk(Resumed(pc, l)[t := c], Released(l))
  {
    if l.queue != [] {
      assert l.queue[0] in l.queue;
      assert l.queue[0] in Resumed(pc, l)[t := c];
    }
  }

  // ----- the count

  /** A change of one task's program counter changes the readers by that task at most. */
  lemma ReadersChange<T>(pc: map<T, Pc>, t: T, c: Pc)
    requires t in pc
    ensures Readers(pc[t := c]) == if IsCounted(c) then Readers(pc) + {t} else Readers(pc) - {t}
    ensures |Readers(pc[t := c])| == |Readers(pc)| + (if IsCounted(c) then 1 else 0) - (if IsCounted(pc[t]) then 1 else 0)
  {
    assert IsCounted(pc[t]) ==> Readers(pc) == (Readers(pc) - {t}) + {t};
  }

  lemma CountStays<T>(pc: map<T, Pc>, count: int, t: T, c: Pc)
    requires CountOk(pc, count) && t in pc && IsCounted(pc[t]) == IsCounted(c)
    requires (c.QueuedForGlobal? ==> pc[t].QueuedForGlobal?)
    ensures CountOk(pc[t := c], count)
  {
    hide IsCounted, Readers;
    ReadersChange(pc, t, c);
    forall q, u | q in pc && u in pc && pc[t := c][q].QueuedForGlobal? && u != q ensures !IsCounted(pc[t := c][u]) {
      assert pc[q].QueuedForGlobal?;
      assert IsCounted(pc[t := c][u]) == IsCounted(pc[u]);
    }
  }

  lemma OnlyReader<T>(pc: map<T, Pc>, t: T, u: T)
    requires t in Readers(pc) && |Readers(pc)| == 1 && u != t
    ensures u !in Readers(pc)
  {
    assert Readers(pc) == {t} + (Readers(pc) - {t});
  }

  lemma OtherReader<T>(pc: map<T, Pc>, t: T) returns (u: T)
    requires |Readers(pc)| > if t in Readers(pc) then 1 else 0
    ensures u in pc && u != t && IsCounted(pc[u])
  {
    var others := Readers(pc) - {t};
    if t in Readers(pc) { assert |others| == |Readers(pc)| - 1; } else { assert others == Readers(pc); }
    assert others != {};
    u :| u in others;
  }

  // ----- every step

  lemma TakeReader<T>(s: State<T>, t: T, queued: Pc, got: Pc)
    requires Inv(s) && t in s.pc
    requires || (s.pc[t].Outside? && queued.QueuedToEnter? && got.Entering?)
             || (s.pc[t].Reading? && queued.QueuedToLeave? && got.Leaving?)
    ensures Inv(AcquireReader(s, t, queued, got))
  {
    hide LineOk, ReaderOk, GlobalOk, CountOk, Taken;
    var c := if s.reader.locked then queued else got;
    LineTaken(s.pc, s.reader, WaitsForReader, t, queued, got);
    ReaderTaken(s.pc, s.reader, t, queued, got);
    LineStays(s.pc, s.global, WaitsForGlobal, t, c);
    GlobalStays(s.pc, s.global, t, c);
    CountStays(s.pc, s.count, t, c);
  }

  lemma TakeGlobal<T>(s: State<T>, t: T, queued: Pc, got: Pc)
    requires Inv(s) && t in s.pc
    requires || (s.pc[t].Outside? && queued.QueuedToWrite? && got.Writing?)
             || (s.pc[t].Counted? && s.count == 1 && queued.QueuedForGlobal? && got.Entered?)
    ensures Inv(AcquireGlobal(s, t, queued, got))
  {
    hide LineOk, ReaderOk, GlobalOk, CountOk, Taken;
    var c := if s.global.locked then queued else got;
    LineTaken(s.pc, s.global, WaitsForGlobal, t, queued, got);
    GlobalTaken(s.pc, s.global, t, queued, got);
    LineStays(s.pc, s.reader, WaitsForReader, t, c);
    ReaderStays(s.pc, s.reader, t, c);
    if s.pc[t].Counted? {
      CountFirst(s.pc, s.count, t, c);
    } else {
      CountStays(s.pc, s.count, t, c);
    }
  }

  /** The first reader goes for GlobalLock. */
  lemma CountFirst<T>(pc: map<T, Pc>, count: int, t: T, c: Pc)
    requires CountOk(pc, count) && t in pc && IsCounted(pc[t]) && IsCounted(c) && count == 1
    ensures CountOk(pc[t := c], count)
  {
    ReadersChange(pc, t, c);
    forall u <- pc | u != t ensures !IsCounted(pc[u]) { OnlyReader(pc, t, u); }
  }

  /** The woken task of a released ReaderLock changes nothing for GlobalLock and the count. */
  lemma ResumedAtReader<T>(s: State<T>)
    requires Inv(s)
    ensures var pc := Resumed(s.pc, s.reader);
            LineOk(pc, s.global, WaitsForGlobal) && GlobalOk(pc, s.global) && CountOk(pc, s.count) && pc.Keys == s.pc.Keys
  {
    if s.reader.queue != [] {
      var w := s.reader.queue[0];
      assert w in s.reader.queue && WaitsForReader(s.pc[w]);
      var c := Granted(s.pc[w]);
      LineStays(s.pc, s.global, WaitsForGlobal, w, c);
      GlobalStays(s.pc, s.global, w, c);
      CountStays(s.pc, s.count, w, c);
      assert s.pc[w := c].Keys == s.pc.Keys;
    }
  }

  lemma ResumedAtGlobal<T>(s: State<T>)
    requires Inv(s)
    ensures var pc := Resumed(s.pc, s.global);
            LineOk(pc, s.reader, WaitsForReader) && ReaderOk(pc, s.reader) && CountOk(pc, s.count) && pc.Keys == s.pc.Keys
  {
    if s.global.queue != [] {
      var w := s.global.queue[0];
      assert w in s.global.queue && WaitsForGlobal(s.pc[w]);
      var c := Granted(s.pc[w]);
      LineStays(s.pc, s.reader, WaitsForReader, w, c);
      ReaderStays(s.pc, s.reader, w, c);
      CountStays(s.pc, s.count, w, c);
      assert s.pc[w := c].Keys == s.pc.Keys;
    }
  }

  /** A task that does not wait is not the one that is woken. */
  lemma NotWoken<T>(pc: map<T, Pc>, l: Lock<T>, waits: Pc -> bool, t: T)
    requires LineOk(pc, l, waits) && t in pc && !waits(pc[t])
    ensures t in Resumed(pc, l) && Resumed(pc, l)[t] == pc[t] && forall w <- l.queue :: w in pc && waits(pc[w])
  {
    if l.queue != [] { assert l.queue[0] in l.queue; }
  }

  lemma GiveReader<T>(s: State<T>, t: T, to: Pc)
    requires Inv(s) && t in s.pc && ((s.pc[t].Entered? && to.Reading?) || (s.pc[t].Left? && to.Outside?))
    ensures Inv(ReleaseReader(s, t, to)) && ReleaseReader(s, t, to).pc.Keys == s.pc.Keys
  {
    hide LineOk, ReaderOk, GlobalOk, CountOk, Resumed, Released;
    NotWoken(s.pc, s.reader, WaitsForReader, t);
    LineReleased(s.pc, s.reader, WaitsForReader, t, to);
    ReaderReleased(s.pc, s.reader, t, to);
    ResumedAtReader(s);
    var pc := Resumed(s.pc, s.reader);
    LineStays(pc, s.global, WaitsForGlobal, t, to);
    GlobalStays(pc, s.global, t, to);
    CountStays(pc, s.count, t, to);
    assert pc[t := to].Keys == pc.Keys;
  }

  lemma OpenInv<T>(s: State<T>)
    requires Inv(s)
    ensures LineOk(s.pc, s.reader, WaitsForReader) && ReaderOk(s.pc, s.reader)
    ensures LineOk(s.pc, s.global, WaitsForGlobal) && GlobalOk(s.pc, s.global) && CountOk(s.pc, s.count)
  {
  }

  /** What becomes of a task that gives GlobalLock back. */
  lemma PcFacts(c: Pc, to: Pc)
    requires (c.Uncounted? && to.Left?) || (c.Writing? && to.Outside?)
    ensures !WaitsForGlobal(c) && !WaitsForGlobal(to) && !WaitsForReader(c) && !WaitsForReader(to)
    ensures HasReader(c) == HasReader(to) && !IsCounted(c) && !IsCounted(to) && (Inside(c) || c.Writing?) && !Inside(to)
    ensures forall w: Pc :: !WaitsForGlobal(Granted(w))
  {
  }

  lemma GiveGlobal<T>(s: State<T>, t: T, to: Pc)
    requires Inv(s) && t in s.pc
    requires ((s.pc[t].Uncounted? && s.count == 0 && to.Left?) || (s.pc[t].Writing? && to.Outside?))
    ensures Inv(ReleaseGlobal(s, t, to)) && ReleaseGlobal(s, t, to).pc.Keys == s.pc.Keys
  {
    NobodyInside(s, t);
    PcFacts(s.pc[t], to);
    hide *;
    OpenInv(s);
    NotWoken(s.pc, s.global, WaitsForGlobal, t);
    LineReleased(s.pc, s.global, WaitsForGlobal, t, to);
    GlobalReleased(s.pc, s.global, t, to);
    ResumedAtGlobal(s);
    var pc := Resumed(s.pc, s.global);
    LineStays(pc, s.reader, WaitsForReader, t, to);
    ReaderStays(pc, s.reader, t, to);
    CountStays(pc, s.count, t, to);
    assert pc[t := to].Keys == pc.Keys;
    CloseGlobal(s, t, to);
  }

  lemma CloseGlobal<T>(s: State<T>, t: T, to: Pc)
    requires var pc := Resumed(s.pc, s.global)[t := to];
             && LineOk(pc, s.reader, WaitsForReader) && ReaderOk(pc, s.reader) && CountOk(pc, s.count)
             && LineOk(pc, Released(s.global), WaitsForGlobal) && GlobalOk(pc, Released(s.global)) && pc.Keys == s.pc.Keys
    ensures Inv(ReleaseGlobal(s, t, to)) && ReleaseGlobal(s, t, to).pc.Keys == s.pc.Keys
  {
  }

  lemma NobodyInside<T>(s: State<T>, t: T)
    requires Inv(s) && t in s.pc && ((s.pc[t].Uncounted? && s.count == 0) || s.pc[t].Writing?)
    ensures forall u <- s.pc :: u != t ==> !Inside(s.pc[u])
  {
    if s.pc[t].Uncounted? {
      forall u <- s.pc | u != t ensures !Inside(s.pc[u]) {
        assert u !in Readers(s.pc);
      }
    }
  }

  /** One step that touches no lock. */
  lemma Walk<T>(s: State<T>, t: T, c: Pc, count: int)
    requires Inv(s) && t in s.pc && HasReader(s.pc[t]) && HasReader(c) && !Blocked(s.pc[t]) && !Blocked(c)
    requires CountOk(s.pc[t := c], count) && GlobalOk(s.pc[t := c], s.global)
    ensures Inv(s.(pc := s.pc[t := c], count := count)) && s.pc[t := c].Keys == s.pc.Keys
  {
    hide LineOk, ReaderOk, GlobalOk, CountOk;
    LineStays(s.pc, s.reader, WaitsForReader, t, c);
    ReaderStays(s.pc, s.reader, t, c);
    LineStays(s.pc, s.global, WaitsForGlobal, t, c);
    assert s.pc[t := c].Keys == s.pc.Keys;
  }

  /** ReaderCount goes up and down with ReaderLock in hand, so no reader waits for GlobalLock. */
  lemma CountSteps<T>(s: State<T>, t: T, c: Pc)
    requires Inv(s) && t in s.pc && ((s.pc[t].Entering? && c.Counted?) || (s.pc[t].Leaving? && c.Uncounted?))
    ensures CountOk(s.pc[t := c], s.count + if c.Counted? then 1 else -1) && GlobalOk(s.pc[t := c], s.global)
  {
    ReadersChange(s.pc, t, c);
    GlobalStays(s.pc, s.global, t, c);
  }

  /** With another reader counted, the readers have GlobalLock and keep it. */
  lemma SharedSteps<T>(s: State<T>, t: T, c: Pc)
    requires Inv(s) && t in s.pc
    requires ((s.pc[t].Counted? && s.count != 1 && c.Entered?) || (s.pc[t].Uncounted? && s.count != 0 && c.Left?))
    ensures CountOk(s.pc[t := c], s.count) && GlobalOk(s.pc[t := c], s.global)
  {
    CountStays(s.pc, s.count, t, c);
    if s.pc[t].Counted? { assert t in Readers(s.pc); }
    var u := OtherReader(s.pc, t);
    GlobalShared(s.pc, s.global, t, c, u);
  }

  lemma StepKeeps<T>(s: State<T>, t: T, want: Want)
    requires Inv(s) && t in s.pc
    ensures Inv(Step(s, t, want)) && Step(s, t, want).pc.Keys == s.pc.Keys
  {
    hide Inv;
    match s.pc[t]
    case Outside =>
      TakeReader(s, t, QueuedToEnter, Entering);
      TakeGlobal(s, t, QueuedToWrite, Writing);
    case Entering =>
      CountSteps(s, t, Counted);
      Walk(s, t, Counted, s.count + 1);
    case Counted =>
      if s.count == 1 {
        TakeGlobal(s, t, QueuedForGlobal, Entered);
      } else {
        SharedSteps(s, t, Entered);
        Walk(s, t, Entered, s.count);
      }
    case Entered => GiveReader(s, t, Reading);
    case Reading => TakeReader(s, t, QueuedToLeave, Leaving);
    case Leaving =>
      CountSteps(s, t, Uncounted);
      Walk(s, t, Uncounted, s.count - 1);
    case Uncounted =>
      if s.count == 0 {
        GiveGlobal(s, t, Left);
      } else {
        SharedSteps(s, t, Left);
        Walk(s, t, Left, s.count);
      }
    case Left => GiveReader(s, t, Outside);
    case Writing => GiveGlobal(s, t, Outside);
    case _ =>
  }

  // ----- every run

  /** Which task takes the next step, and what it wants if it is outside. */
  datatype Move<T> = Move(task: T, want: Want)

  function Run<T(==)>(s: State<T>, moves: seq<Move<T>>): State<T>
    decreases moves
  {
    if moves == [] then s
    else Run(if moves[0].task in s.pc then Step(s, moves[0].task, moves[0].want) else s, moves[1..])
  }

  lemma {:induction false} RunKeeps<T>(s: State<T>, moves: seq<Move<T>>)
    requires Inv(s)
    ensures Inv(Run(s, moves)) && Run(s, moves).pc.Keys == s.pc.Keys
    decreases moves
  {
    if moves != [] {
      if moves[0].task in s.pc { StepKeeps(s, moves[0].task, moves[0].want); }
      RunKeeps(if moves[0].task in s.pc then Step(s, moves[0].task, moves[0].want) else s, moves[1..]);
    }
  }

  /** Over every interleaving of any number of tasks, a writer is alone. */
  lemma WriterAlone<T>(s: State<T>, moves: seq<Move<T>>, w: T, u: T)
    requires Initial(s)
    ensures var pc := Run(s, moves).pc; w in pc && u in pc && w != u && pc[w].Writing? ==> !pc[u].Writing? && !pc[u].Reading?
  {
    InitialInv(s);
    RunKeeps(s, moves);
  }

  /** Whenever nobody is in the middle of an operation, ReaderCount is the number of readers. */
  lemma CountAtRest<T>(s: State<T>, moves: seq<Move<T>>)
    requires Initial(s)
    ensures var s' := Run(s, moves);
            (forall t <- s'.pc :: s'.pc[t].Outside? || s'.pc[t].Reading? || s'.pc[t].Writing?)
            ==> s'.count == |set t | t in s'.pc && s'.pc[t].Reading?|
  {
    InitialInv(s);
    RunKeeps(s, moves);
    var s' := Run(s, moves);
    if forall t <- s'.pc :: s'.pc[t].Outside? || s'.pc[t].Reading? || s'.pc[t].Writing? {
      assert Readers(s'.pc) == set t | t in s'.pc && s'.pc[t].Reading?;
    }
  }

  /** The task that a waiting task waits for in the end: it has the lock and does not wait. */
  lemma Unblocker<T>(s: State<T>, t: T) returns (u: T)
    requires Inv(s) && t in s.pc && Blocked(s.pc[t])
    ensures u in s.pc && !Blocked(s.pc[u]) && (HasReader(s.pc[u]) || Inside(s.pc[u]) || s.pc[u].Writing?)
  {
    if WaitsForReader(s.pc[t]) {
      assert t in s.reader.queue;
      u := s.reader.owner.value;
      if Blocked(s.pc[u]) { u := GlobalHolder(s, u); }
    } else {
      u := GlobalHolder(s, t);
    }
  }

  lemma GlobalHolder<T>(s: State<T>, t: T) returns (u: T)
    requires Inv(s) && t in s.pc && WaitsForGlobal(s.pc[t])
    ensures u in s.pc && !Blocked(s.pc[u]) && (HasReader(s.pc[u]) || Inside(s.pc[u]) || s.pc[u].Writing?)
  {
    assert t in s.global.queue;
    u :| u in s.pc && (s.pc[u].Writing? || Inside(s.pc[u]));
    if Blocked(s.pc[u]) {
      assert s.pc[u].QueuedToLeave? && u in s.reader.queue;
      u := s.reader.owner.value;
    }
  }

  /** No deadlock: whenever some task waits, some task that holds a lock can go on. */
  lemma NoDeadlock<T>(s: State<T>, moves: seq<Move<T>>, t: T) returns (u: T)
    requires Initial(s) && t in Run(s, moves).pc && Blocked(Run(s, moves).pc[t])
    ensures var pc := Run(s, moves).pc; u in pc && !Blocked(pc[u]) && !pc[u].Outside?
  {
    InitialInv(s);
    RunKeeps(s, moves);
    u := Unblocker(Run(s, moves), t);
  }

  // ----- nobody overtakes

  /** Those that wait for one of the locks, in the order of the queue. */
  function LineOf<T>(s: State<T>, global: bool): seq<T> {
    if global then s.global.queue else s.reader.queue
  }

  function Next<T(==)>(s: State<T>, m: Move<T>): State<T> {
    if m.task in s.pc then Step(s, m.task, m.want) else s
  }

  /** Task u waits for the lock at every point of the run. */
  ghost predicate WaitsThroughout<T>(s: State<T>, moves: seq<Move<T>>, u: T, global: bool)
    decreases moves
  {
    u in LineOf(s, global) && (moves == [] || WaitsThroughout(Next(s, moves[0]), moves[1..], u, global))
  }

  /** A queue grows at its end and shrinks at its front. */
  lemma LineStep<T>(s: State<T>, m: Move<T>, global: bool)
    ensures var line, line' := LineOf(s, global), LineOf(Next(s, m), global);
      line' == line || line' == line + [m.task] || (line != [] && line' == line[1..])
  {
    hide Resumed;
  }

  /** Who waits is not overtaken: those that came after it wait behind it as long as it waits,
      in the same order. */
  lemma {:induction false} NobodyOvertakes<T>(s: State<T>, moves: seq<Move<T>>, u: T, global: bool) returns (k: nat)
    requires Inv(s) && WaitsThroughout(s, moves, u, global)
    ensures k <= |LineOf(s, global)| && u in LineOf(s, global)[k..]
    ensures LineOf(s, global)[k..] <= LineOf(Run(s, moves), global)
    decreases moves
  {
    var line := LineOf(s, global);
    if moves == [] {
      assert line[0..] == line;
      return 0;
    }
    var s' := Next(s, moves[0]);
    if moves[0].task in s.pc { StepKeeps(s, moves[0].task, moves[0].want); }
    LineStep(s, moves[0], global);
    NoneTwice(s', global);
    hide *;
    k := NobodyOvertakes(s', moves[1..], u, global);
    NextRun(s, moves);
    k := Stepped(line, LineOf(s', global), moves[0].task, k, u, LineOf(Run(s, moves), global));
  }

  lemma NextRun<T>(s: State<T>, moves: seq<Move<T>>)
    requires moves != []
    ensures Run(s, moves) == Run(Next(s, moves[0]), moves[1..])
  {
  }

  lemma Stepped<T>(line: seq<T>, line': seq<T>, t: T, j: nat, u: T, end: seq<T>) returns (k: nat)
    requires line' == line || line' == line + [t] || (line != [] && line' == line[1..])
    requires NoDuplicates(line') && u in line && j <= |line'| && u in line'[j..] && line'[j..] <= end
    ensures k <= |line| && u in line[k..] && line[k..] <= end
  {
    k := j;
    if line' == line + [t] {
      StillThere(line, t, j, u);
    } else if line' != line {
      assert line[1..][j..] == line[j + 1..];
      k := j + 1;
    }
  }

  lemma NoneTwice<T>(s: State<T>, global: bool)
    requires Inv(s)
    ensures NoDuplicates(LineOf(s, global))
  {
  }

  lemma StillThere<T>(line: seq<T>, t: T, k: nat, u: T)
    requires NoDuplicates(line + [t]) && u in line && k <= |line + [t]| && u in (line + [t])[k..]
    ensures k <= |line| && u in line[k..] && line[k..] <= (line + [t])[k..]
  {
    var i :| 0 <= i < |line| && line[i] == u;
    var j :| k <= j < |line + [t]| && (line + [t])[j] == u;
    assert (line + [t])[i] == u && i == j;
    assert line[k..][i - k] == u;
    assert (line + [t])[k..] == line[k..] + [t];
  }

  // ----- everybody gets on

  /** The steps that a task at c still has to make to be outside again. */
  function StepsLeft(c: Pc): nat {
    match c
    case Outside => 0
    case QueuedToEnter => 10
    case Entering => 9
    case Counted => 8
    case QueuedForGlobal => 7
    case Entered => 6
    case Reading => 5
    case QueuedToLeave => 4
    case Leaving => 3
    case Uncounted => 2
    case Left => 1
    case QueuedToWrite => 2
    case Writing => 1
  }

  /** The steps that all tasks still have to make. */
  ghost function Work<T>(pc: map<T, Pc>): nat {
    if pc.Keys == {} then 0 else var t :| t in pc.Keys; StepsLeft(pc[t]) + Work(pc - {t})
  }

  lemma {:induction false} WorkOf<T>(pc: map<T, Pc>, t: T)
    requires t in pc
    ensures Work(pc) == StepsLeft(pc[t]) + Work(pc - {t})
    decreases |pc|
  {
    var u :| u in pc.Keys && Work(pc) == StepsLeft(pc[u]) + Work(pc - {u});
    if u != t {
      WorkOf(pc - {u}, t);
      WorkOf(pc - {t}, u);
      assert pc - {u} - {t} == pc - {t} - {u};
    }
  }

  lemma WorkChange<T>(pc: map<T, Pc>, t: T, c: Pc)
    requires t in pc
    ensures Work(pc[t := c]) + StepsLeft(pc[t]) == Work(pc) + StepsLeft(c)
  {
    WorkOf(pc, t);
    WorkOf(pc[t := c], t);
    assert pc[t := c] - {t} == pc - {t};
  }

  /** Being woken brings a task on. */
  lemma ResumedWork<T>(pc: map<T, Pc>, l: Lock<T>)
    ensures Work(Resumed(pc, l)) <= Work(pc) && Resumed(pc, l).Keys == pc.Keys
  {
    if l.queue != [] && l.queue[0] in pc { WorkChange(pc, l.queue[0], Granted(pc[l.queue[0]])); }
  }

  /** A step of a task that is under way and does not wait leaves less to do. */
  lemma StepWorks<T>(s: State<T>, t: T, want: Want)
    requires Inv(s) && t in s.pc && !Blocked(s.pc[t]) && !s.pc[t].Outside?
    ensures Work(Step(s, t, want).pc) < Work(s.pc)
  {
    OpenInv(s);
    NotWoken(s.pc, s.reader, WaitsForReader, t);
    NotWoken(s.pc, s.global, WaitsForGlobal, t);
    hide Inv, LineOk, ReaderOk, GlobalOk, CountOk, Resumed, Released, Taken, Work;
    var to := Step(s, t, want).pc[t];
    ResumedWork(s.pc, s.reader);
    ResumedWork(s.pc, s.global);
    WorkChange(s.pc, t, to);
    WorkChange(Resumed(s.pc, s.reader), t, to);
    WorkChange(Resumed(s.pc, s.global), t, to);
    StepForms(s, t, want);
  }

  /** A step moves its own task on, and may wake one. */
  lemma StepForms<T>(s: State<T>, t: T, want: Want)
    requires t in s.pc && !Blocked(s.pc[t]) && !s.pc[t].Outside?
    ensures t in Step(s, t, want).pc && StepsLeft(Step(s, t, want).pc[t]) < StepsLeft(s.pc[t])
    ensures var pc, to := Step(s, t, want).pc, Step(s, t, want).pc[t];
      pc == s.pc[t := to] || pc == Resumed(s.pc, s.reader)[t := to] || pc == Resumed(s.pc, s.global)[t := to]
  {
    hide Resumed, Released, Taken;
  }

  /** With everybody outside both locks are free and nobody is counted. */
  lemma AllOutside<T>(s: State<T>)
    requires Inv(s) && forall t <- s.pc :: s.pc[t].Outside?
    ensures Initial(s)
  {
    assert Readers(s.pc) == {};
    assert !s.reader.locked && !s.global.locked;
  }

  /** Somebody under way can take a step, if anybody is under way at all. */
  lemma SomebodyMoves<T>(s: State<T>, t: T) returns (u: T)
    requires Inv(s) && t in s.pc && !s.pc[t].Outside?
    ensures u in s.pc && !Blocked(s.pc[u]) && !s.pc[u].Outside?
  {
    u := t;
    if Blocked(s.pc[t]) { u := Unblocker(s, t); }
  }

  /** Each move is one of a task that is under way and does not wait. */
  ghost predicate Onward<T>(s: State<T>, moves: seq<Move<T>>)
    decreases moves
  {
    moves == [] || (
      && moves[0].task in s.pc && !Blocked(s.pc[moves[0].task]) && !s.pc[moves[0].task].Outside?
      && Onward(Step(s, moves[0].task, moves[0].want), moves[1..]))
  }

  /** In whatever order the tasks under way are let on, they take so many steps at most, and when
      none of them can take another everybody is outside with both locks free. */
  lemma {:induction false} OnwardEnds<T>(s: State<T>, moves: seq<Move<T>>)
    requires Inv(s) && Onward(s, moves)
    ensures |moves| + Work(Run(s, moves).pc) <= Work(s.pc)
    ensures var s' := Run(s, moves);
      (forall t <- s'.pc :: s'.pc[t].Outside? || Blocked(s'.pc[t])) ==> Initial(s')
    decreases moves
  {
    if moves == [] {
      if t :| t in s.pc && !s.pc[t].Outside? { var u := SomebodyMoves(s, t); } else { AllOutside(s); }
    } else {
      StepKeeps(s, moves[0].task, moves[0].want);
      StepWorks(s, moves[0].task, moves[0].want);
      hide Inv, Step, Work;
      OnwardEnds(Step(s, moves[0].task, moves[0].want), moves[1..]);
    }
  }

  /** Some such moves do lead there. */
  lemma {:induction false} LetOn<T>(s: State<T>) returns (moves: seq<Move<T>>)
    requires Inv(s)
    ensures Onward(s, moves) && Initial(Run(s, moves)) && Run(s, moves).pc.Keys == s.pc.Keys
    decreases Work(s.pc)
  {
    if t :| t in s.pc && !s.pc[t].Outside? {
      var u := SomebodyMoves(s, t);
      StepKeeps(s, u, ToRead);
      StepWorks(s, u, ToRead);
      hide Inv, Step, Work, Initial;
      var rest := LetOn(Step(s, u, ToRead));
      moves := [Move(u, ToRead)] + rest;
      assert moves[1..] == rest;
    } else {
      AllOutside(s);
      moves := [];
    }
  }

  lemma {:induction false} RunConcat<T>(s: State<T>, a: seq<Move<T>>, b: seq<Move<T>>)
    ensures Run(s, a + b) == Run(Run(s, a), b)
    decreases a
  {
    if a == [] {
      assert a + b == b;
    } else {
      RunConcat(if a[0].task in s.pc then Step(s, a[0].task, a[0].want) else s, a[1..], b);
      assert (a + b)[0] == a[0] && (a + b)[1..] == a[1..] + b;
    }
  }

  /** From every reachable state the tasks can all be let out, with both locks free then. */
  lemma EverybodyLeaves<T>(s: State<T>, moves: seq<Move<T>>) returns (more: seq<Move<T>>)
    requires Initial(s)
    ensures Onward(Run(s, moves), more) && Initial(Run(s, moves + more)) && Run(s, moves + more).pc.Keys == s.pc.Keys
  {
    InitialInv(s);
    RunKeeps(s, moves);
    more := LetOn(Run(s, moves));
    RunConcat(s, moves, more);
  }

  lemma NextMove<T>(s: State<T>, m: Move<T>, moves: seq<Move<T>>)
    requires m.task in s.pc
    ensures Run(s, [m] + moves) == Run(Step(s, m.task, m.want), moves)
  {
    assert ([m] + moves)[1..] == moves;
  }

  /** The task counts itself, with ReaderLock in hand. */
  lemma GetCounted<T>(s: State<T>, t: T) returns (s': State<T>)
    requires Inv(s) && t in s.pc && s.pc[t].Outside? && !s.reader.locked
    ensures Run(s, [Move(t, ToRead), Move(t, ToRead)]) == s' && Inv(s')
    ensures s'.pc == s.pc[t := Counted] && s'.reader == Lock(true, Some(t), []) && s'.global == s.global
  {
    var m := Move(t, ToRead);
    var s1 := Step(s, t, ToRead);
    StepKeeps(s, t, ToRead);
    StepKeeps(s1, t, ToRead);
    s' := Step(s1, t, ToRead);
    assert s'.pc == s.pc[t := Counted];
    NextMove(s, m, [m]);
    NextMove(s1, m, []);
    assert [m] + [m] == [m, m] && [m] + [] == [m];
  }

  /** The first reader finds GlobalLock free if nobody writes, and the others need not look. */
  lemma GetReading<T>(s: State<T>, t: T)
    requires Inv(s) && t in s.pc && s.pc[t].Counted? && s.reader == Lock(true, Some(t), [])
    requires forall u <- s.pc :: u != t ==> s.pc[u].Outside? || s.pc[u].Reading?
    ensures Run(s, [Move(t, ToRead), Move(t, ToRead)]).pc == s.pc[t := Reading]
  {
    var m := Move(t, ToRead);
    assert t in Readers(s.pc);
    if s.count == 1 {
      forall u <- s.pc | u != t ensures s.pc[u].Outside? { OnlyReader(s.pc, t, u); }
      assert !s.global.locked;
    }
    var s1 := Step(s, t, ToRead);
    assert s1.pc == s.pc[t := Entered] && s1.reader == s.reader;
    NextMove(s, m, [m]);
    NextMove(s1, m, []);
    assert [m] + [m] == [m, m] && [m] + [] == [m];
    assert Step(s1, t, ToRead).pc == s.pc[t := Reading];
  }

  /** While the others read or are outside, a task comes in to read in four steps of its own. */
  lemma ReadersShare<T>(s: State<T>, t: T)
    requires Inv(s) && t in s.pc && s.pc[t].Outside? && forall u <- s.pc :: s.pc[u].Outside? || s.pc[u].Reading?
    ensures var m := Move(t, ToRead); Run(s, [m, m, m, m]).pc == s.pc[t := Reading]
  {
    var m := Move(t, ToRead);
    assert !s.reader.locked;
    hide Inv, Step;
    var s' := GetCounted(s, t);
    GetReading(s', t);
    RunConcat(s, [m, m], [m, m]);
    assert [m, m] + [m, m] == [m, m, m, m];
  }

  /** While all others are outside, a task comes in to write in one step. */
  lemma WriterEnters<T>(s: State<T>, t: T)
    requires Initial(s) && t in s.pc
    ensures Run(s, [Move(t, ToWrite)]).pc == s.pc[t := Writing]
  {
  }

  /** Whatever has happened, any task can still come to read and to write. */
  lemma AnybodyGetsIn<T>(s: State<T>, moves: seq<Move<T>>, t: T) returns (read: seq<Move<T>>, write: seq<Move<T>>)
    requires Initial(s) && t in s.pc
    ensures t in Run(s, moves + read).pc && Run(s, moves + read).pc[t].Reading?
    ensures t in Run(s, moves + write).pc && Run(s, moves + write).pc[t].Writing?
  {
    var out := EverybodyLeaves(s, moves);
    var s', m := Run(s, moves + out), Move(t, ToRead);
    InitialInv(s');
    ReadersShare(s', t);
    WriterEnters(s', t);
    read, write := out + [m, m, m, m], out + [Move(t, ToWrite)];
    RunConcat(s, moves + out, [m, m, m, m]);
    RunConcat(s, moves + out, [Move(t, ToWrite)]);
    assert moves + read == moves + out + [m, m, m, m] && moves + write == moves + out + [Move(t, ToWrite)];
  }
}
