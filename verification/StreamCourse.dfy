/** How far streams have come over a whole run, told from what was sent and received alone. */
module StreamCourse {
  import opened Headers
  import opened StreamState
  import opened StreamStore
  import opened SendFlow
  import opened StreamLife

  /** What an event does to the halves of streams: HEADERS, data or END_STREAM taken from the user move the sending half
      of a stream on to `to`, those of the peer the receiving half; or a stream is given up, or all there are beyond
      some. */
  datatype Mark =
    | Neither
    | Sender(k: Key, to: Half)
    | Receiver(k: Key, to: Half)
    | GivenUp(k: Key)
    | GivenUpBeyond(last: int)
  {
    predicate GivesUp(j: Key) {
      this == GivenUp(j) || (GivenUpBeyond? && j > last)
    }

    /** It is about stream `j` alone. */
    predicate About(j: Key) {
      (Sender? || Receiver? || GivenUp?) && k == j
    }
  }

  /** How far a stream has come, or that it was given up. */
  datatype Course = Course(send: Half, recv: Half) | Over

  /** Of a stream nothing was heard yet. */
  const UNHEARD := Course.Course(Waiting, Waiting)

  function After(c: Course, mark: Mark, k: Key): Course {
    if c.Over? || (mark.GivesUp(k) && (mark.GivenUp? || c != UNHEARD)) then Over
    else
      match mark
      case Sender(j, to) => if j == k then c.(send := to) else c
      case Receiver(j, to) => if j == k then c.(recv := to) else c
      case _ => c
  }

  function CourseOf(marks: seq<Mark>, k: Key): Course {
    if marks == [] then UNHEARD else After(CourseOf(marks[..|marks| - 1], k), marks[|marks| - 1], k)
  }

  /** What one event does to stream `k`. One that is new was not on the books. */
  ghost predicate Step(known: set<Key>, m: map<Key, Stream>, m': map<Key, Stream>, k: Key, mark: Mark) {
    && (mark.Sender? || mark.Receiver? ==> mark.to != Waiting)
    && if k !in m && k !in m' then !mark.About(k)
       else if k !in m then k !in known && mark.About(k) && Shows(m', k, After(UNHEARD, mark, k))
       else if mark.GivesUp(k) then k in m' ==> m'[k].state.Closed?
       else
         var s := m[k].state;
         && (s.Closed? && k in m' ==> m'[k].state.Closed?)
         && (s.IsReset() || if mark.About(k) then Moves(m, m', k, mark.Sender?, mark.to)
                            else StandsAt(m', k, s.SendHalf(), s.RecvHalf()))
  }

  ghost predicate AllStep(known: set<Key>, m: map<Key, Stream>, m': map<Key, Stream>, mark: Mark) {
    forall k: Key :: Step(known, m, m', k, mark)
  }

  lemma NothingSteps(known: set<Key>, m: map<Key, Stream>, m': map<Key, Stream>)
    requires AllKept(m, m')
    ensures AllStep(known, m, m', Neither)
  {
    forall k: Key ensures Step(known, m, m', k, Neither) {
      assert Kept(m, m', k);
    }
  }

  /** A stream moved on, or was given up. */
  lemma OneSteps(known: set<Key>, m: map<Key, Stream>, m': map<Key, Stream>, k: Key, to: State, mark: Mark)
    requires k in m && Becomes(m, m', k, to) && mark.About(k)
    requires if mark.GivenUp? then to.Closed? else mark.to != Waiting && Moves(m, m', k, mark.Sender?, mark.to)
    ensures AllStep(known, m, m', mark)
  {
    forall j: Key ensures Step(known, m, m', j, mark) {
      assert j != k ==> Kept(m, m', j);
    }
  }

  lemma NoneSteps(known: set<Key>, m: map<Key, Stream>, m': map<Key, Stream>, k: Key, to: State)
    requires k in m && Becomes(m, m', k, to) && (to == m[k].state || (m[k].state.IsReset() && to.IsReset()))
    ensures AllStep(known, m, m', Neither)
  {
    forall j: Key ensures Kept(m, m', j) {
    }
    NothingSteps(known, m, m');
  }

  /** A stream was opened. */
  lemma NewSteps(known: set<Key>, m: map<Key, Stream>, m': map<Key, Stream>, k: Key, mark: Mark)
    requires k !in m && k in m' && k !in known && mark.About(k) && (forall j: Key :: j != k ==> Kept(m, m', j))
    requires if mark.GivenUp? then m'[k].state.Closed?
      else mark.to != Waiting && Shows(m', k, After(UNHEARD, mark, k))
    ensures AllStep(known, m, m', mark)
  {
    forall j: Key ensures Step(known, m, m', j, mark) {
      assert j != k ==> Kept(m, m', j);
    }
  }

  /** All streams beyond `last` were given up. */
  lemma BeyondSteps(known: set<Key>, m: map<Key, Stream>, m': map<Key, Stream>, last: int)
    requires forall k: Key :: if k > last then k in m' ==> k in m && m'[k].state.Closed? else Kept(m, m', k)
    ensures AllStep(known, m, m', GivenUpBeyond(last))
  {
    forall k: Key ensures Step(known, m, m', k, GivenUpBeyond(last)) {
      assert k <= last ==> Kept(m, m', k);
    }
  }

  /** A stream that was heard of is as its course says. */
  ghost predicate Shows(m: map<Key, Stream>, k: Key, c: Course) {
    match c
    case Over => k in m ==> m[k].state.Closed?
    case Course(send, recv) => StandsAt(m, k, send, recv)
  }

  /** And it was heard of exactly if it is `known`. */
  ghost predicate Told(known: set<Key>, m: map<Key, Stream>, k: Key, marks: seq<Mark>) {
    var c := CourseOf(marks, k);
    && (k in m ==> k in known) && (c == UNHEARD <==> k !in known) && (k in known ==> Shows(m, k, c))
    && (c.Course? ==>
        (c.send == Done <==> Sender(k, Done) in marks) && (c.recv == Done <==> Receiver(k, Done) in marks))
    && (c.Over? ==> exists i :: 0 <= i < |marks| && marks[i].GivesUp(k))
    && (c == UNHEARD ==> forall i :: 0 <= i < |marks| ==> !marks[i].About(k))
  }

  ghost predicate AllTold(known: set<Key>, m: map<Key, Stream>, marks: seq<Mark>) {
    forall k: Key :: Told(known, m, k, marks)
  }

  lemma NothingTold()
    ensures AllTold({}, map[], [])
  {
  }

  lemma OneMoreTold(known: set<Key>, m: map<Key, Stream>, m': map<Key, Stream>, marks: seq<Mark>, mark: Mark)
    requires AllTold(known, m, marks) && AllStep(known, m, m', mark)
    ensures AllTold(known + m'.Keys, m', marks + [mark])
  {
    hide CourseOf, Told, Step;
    forall k: Key ensures Told(known + m'.Keys, m', k, marks + [mark]) {
      StepTold(known, m, m', k, marks, mark);
    }
  }

  lemma Marked(marks: seq<Mark>, mark: Mark, k: Key)
    ensures CourseOf(marks + [mark], k) == After(CourseOf(marks, k), mark, k)
    ensures forall x :: x in marks + [mark] <==> x in marks || x == mark
    ensures (exists i :: 0 <= i < |marks| && marks[i].GivesUp(k)) || mark.GivesUp(k) ==>
      exists i :: 0 <= i < |marks + [mark]| && (marks + [mark])[i].GivesUp(k)
  {
    var marks' := marks + [mark];
    assert marks'[..|marks'| - 1] == marks && marks'[|marks|] == mark;
    forall i | 0 <= i < |marks| && marks[i].GivesUp(k) ensures marks'[i].GivesUp(k) {
    }
  }

  lemma StepTold(known: set<Key>, m: map<Key, Stream>, m': map<Key, Stream>, k: Key, marks: seq<Mark>, mark: Mark)
    requires Told(known, m, k, marks) && Step(known, m, m', k, mark)
    ensures Told(known + m'.Keys, m', k, marks + [mark])
  {
    hide CourseOf;
    Marked(marks, mark, k);
  }

  /** Unless it was given up, a stream is closed, or gone, exactly if END_STREAM was both sent and received; one that is
      not there was never heard of otherwise. */
  ghost predicate ClosedByEnds(m: map<Key, Stream>, k: Key, marks: seq<Mark>) {
    var ended := Sender(k, Done) in marks && Receiver(k, Done) in marks;
    if k in m then m[k].state.Closed? <==> ended
    else ended || forall i :: 0 <= i < |marks| ==> !marks[i].About(k)
  }

  lemma ClosedExactly(known: set<Key>, m: map<Key, Stream>, k: Key, marks: seq<Mark>)
    requires Told(known, m, k, marks) && forall i :: 0 <= i < |marks| ==> !marks[i].GivesUp(k)
    ensures ClosedByEnds(m, k, marks)
  {
    hide CourseOf;
  }
}
