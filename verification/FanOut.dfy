/** The fan-out of master/paralleliser.go as an interleaving step system: one goroutine per node, two unbuffered
    channels each with a reader, and two wait groups. */
module FanOut {
  import opened Wrappers

  /** One send made by the function a worker runs. */
  datatype Send<V> = Result(value: V) | Failure(msg: string)

  datatype Worker<V> =
    | Ready                                             // the worker function has not been called yet
    | Running(todo: seq<Send<V>>, panic: Option<string>) // sends still to make, then perhaps a panic
    | Recovering(msg: string)                           // the deferred recover is about to send the error
    | Leaving                                           // only wg.Done is left
    | Gone

  /** A reader goroutine: at its receive, holding a received value it has yet to append, or finished. */
  datatype Reader<X> = Waiting | Holding(x: X) | Exited

  datatype Caller = WaitWorkers | CloseResults | CloseErrors | WaitReaders | Returned

  /** `owedResults` and `owedErrors` collect everything the workers called so far were going to send. */
  datatype Net<V(==)> = Net(
    workers: seq<Worker<V>>, wg: nat,
    resultsOpen: bool, errorsOpen: bool,
    resultReader: Reader<V>, errorReader: Reader<string>, readersWg: nat,
    results: seq<V>, errs: seq<string>,
    caller: Caller,
    owedResults: multiset<V>, owedErrors: multiset<string>)

  datatype Action<V> =
    | Begin(i: nat, todo: seq<Send<V>>, panic: Option<string>)
    | SendResult(i: nat)
    | SendError(i: nat)
    | Finish(i: nat)
    | Done(i: nat)
    | AppendResult
    | AppendError
    | ExitResults
    | ExitErrors
    | Advance  // the caller's next step

  /** All goroutines have been started, none has run. */
  ghost function Start<V>(n: nat): Net<V> {
    Net(seq(n, _ => Ready), n, true, true, Waiting, Waiting, 2, [], [], WaitWorkers, multiset{}, multiset{})
  }

  // ----- steps -----

  function NextSend<V>(w: Worker<V>): Option<Send<V>> {
    match w
    case Running(todo, _) => if todo == [] then None else Some(todo[0])
    case Recovering(msg) => Some(Failure(msg))
    case _ => None
  }

  function AfterSend<V>(w: Worker<V>): Worker<V>
    requires NextSend(w).Some?
  {
    if w.Running? then w.(todo := w.todo[1..]) else Leaving
  }

  ghost predicate Enabled<V>(s: Net<V>, a: Action<V>) {
    match a
    case Begin(i, _, _) => i < |s.workers| && s.workers[i].Ready?
    case SendResult(i) =>
      && i < |s.workers| && NextSend(s.workers[i]).Some? && NextSend(s.workers[i]).value.Result?
      && s.resultsOpen && s.resultReader.Waiting?
    case SendError(i) =>
      && i < |s.workers| && NextSend(s.workers[i]).Some? && NextSend(s.workers[i]).value.Failure?
      && s.errorsOpen && s.errorReader.Waiting?
    case Finish(i) => i < |s.workers| && s.workers[i].Running? && s.workers[i].todo == []
    case Done(i) => i < |s.workers| && s.workers[i].Leaving? && s.wg > 0
    case AppendResult => s.resultReader.Holding?
    case AppendError => s.errorReader.Holding?
    case ExitResults => s.resultReader.Waiting? && !s.resultsOpen && s.readersWg > 0
    case ExitErrors => s.errorReader.Waiting? && !s.errorsOpen && s.readersWg > 0
    case Advance =>
      match s.caller
      case WaitWorkers => s.wg == 0
      case CloseResults | CloseErrors => true
      case WaitReaders => s.readersWg == 0
      case Returned => false
  }

  ghost function With<V>(s: Net<V>, i: nat, w: Worker<V>): Net<V>
    requires i < |s.workers|
  {
    s.(workers := s.workers[i := w])
  }

  ghost function Do<V>(s: Net<V>, a: Action<V>): Net<V>
    requires Enabled(s, a)
  {
    match a
    case Begin(i, todo, panic) =>
      With(s, i, Running(todo, panic)).(
        owedResults := s.owedResults + ResultsOf(todo),
        owedErrors := s.owedErrors + (ErrorsOf(todo) + PanicOf(panic)))
    case SendResult(i) =>
      With(s, i, AfterSend(s.workers[i])).(resultReader := Holding(NextSend(s.workers[i]).value.value))
    case SendError(i) =>
      With(s, i, AfterSend(s.workers[i])).(errorReader := Holding(NextSend(s.workers[i]).value.msg))
    case Finish(i) =>
      With(s, i, if s.workers[i].panic.Some? then Recovering(s.workers[i].panic.value) else Leaving)
    case Done(i) => With(s, i, Gone).(wg := s.wg - 1)
    case AppendResult => s.(results := s.results + [s.resultReader.x], resultReader := Waiting)
    case AppendError => s.(errs := s.errs + [s.errorReader.x], errorReader := Waiting)
    case ExitResults => s.(resultReader := Exited, readersWg := s.readersWg - 1)
    case ExitErrors => s.(errorReader := Exited, readersWg := s.readersWg - 1)
    case Advance =>
      match s.caller
      case WaitWorkers => s.(caller := CloseResults)
      case CloseResults => s.(caller := CloseErrors, resultsOpen := false)
      case CloseErrors => s.(caller := WaitReaders, errorsOpen := false)
      case WaitReaders => s.(caller := Returned)
  }

  // ----- what is still to be sent -----

  ghost function ResultsOf<V>(todo: seq<Send<V>>): multiset<V> {
    if todo == [] then multiset{}
    else (if todo[0].Result? then multiset{todo[0].value} else multiset{}) + ResultsOf(todo[1..])
  }

  ghost function ErrorsOf<V>(todo: seq<Send<V>>): multiset<string> {
    if todo == [] then multiset{}
    else (if todo[0].Failure? then multiset{todo[0].msg} else multiset{}) + ErrorsOf(todo[1..])
  }

  ghost function WorkerResults<V>(w: Worker<V>): multiset<V> {
    if w.Running? then ResultsOf(w.todo) else multiset{}
  }

  ghost function WorkerErrors<V>(w: Worker<V>): multiset<string> {
    match w
    case Running(todo, panic) => ErrorsOf(todo) + PanicOf(panic)
    case Recovering(msg) => multiset{msg}
    case _ => multiset{}
  }

  ghost function PendingResults<V>(ws: seq<Worker<V>>): multiset<V> {
    if ws == [] then multiset{} else PendingResults(ws[..|ws| - 1]) + WorkerResults(ws[|ws| - 1])
  }

  ghost function PendingErrors<V>(ws: seq<Worker<V>>): multiset<string> {
    if ws == [] then multiset{} else PendingErrors(ws[..|ws| - 1]) + WorkerErrors(ws[|ws| - 1])
  }

  /** How many workers have not called wg.Done. */
  ghost function Present<V>(ws: seq<Worker<V>>): nat {
    if ws == [] then 0 else Present(ws[..|ws| - 1]) + (if ws[|ws| - 1].Gone? then 0 else 1)
  }

  lemma {:induction false} SplitUpdate<V>(ws: seq<Worker<V>>, i: nat, w: Worker<V>)
    requires i < |ws|
    ensures i < |ws| - 1 ==> ws[i := w][..|ws| - 1] == ws[..|ws| - 1][i := w]
    ensures i == |ws| - 1 ==> ws[i := w][..|ws| - 1] == ws[..|ws| - 1]
  {
  }

  // Multiset bookkeeping.

  lemma Regroup<X>(p': multiset<X>, r: multiset<X>, p: multiset<X>, r': multiset<X>, w: multiset<X>)
    requires p' + r == p + r'
    ensures (p' + w) + r == (p + w) + r'
  {
    assert (p' + w) + r == (p' + r) + w;
    assert (p + w) + r' == (p + r') + w;
  }

  lemma Swap<X>(p: multiset<X>, r: multiset<X>, r': multiset<X>)
    ensures (p + r') + r == (p + r) + r'
  {
  }

  lemma Cancel<X>(a: multiset<X>, b: multiset<X>, c: multiset<X>)
    requires a + c == b + c
    ensures a == b
  {
    forall x
      ensures a[x] == b[x]
    {
      assert (a + c)[x] == (b + c)[x];
    }
  }

  lemma {:induction false} UpdateResults<V>(ws: seq<Worker<V>>, i: nat, w: Worker<V>)
    requires i < |ws|
    ensures PendingResults(ws[i := w]) + WorkerResults(ws[i]) == PendingResults(ws) + WorkerResults(w)
  {
    SplitUpdate(ws, i, w);
    var init, last := ws[..|ws| - 1], ws[|ws| - 1];
    if i < |ws| - 1 {
      UpdateResults(init, i, w);
      Regroup(PendingResults(init[i := w]), WorkerResults(ws[i]),
              PendingResults(init), WorkerResults(w), WorkerResults(last));
    } else {
      Swap(PendingResults(init), WorkerResults(last), WorkerResults(w));
    }
  }

  lemma {:induction false} UpdateErrors<V>(ws: seq<Worker<V>>, i: nat, w: Worker<V>)
    requires i < |ws|
    ensures PendingErrors(ws[i := w]) + WorkerErrors(ws[i]) == PendingErrors(ws) + WorkerErrors(w)
  {
    SplitUpdate(ws, i, w);
    var init, last := ws[..|ws| - 1], ws[|ws| - 1];
    if i < |ws| - 1 {
      UpdateErrors(init, i, w);
      Regroup(PendingErrors(init[i := w]), WorkerErrors(ws[i]),
              PendingErrors(init), WorkerErrors(w), WorkerErrors(last));
    } else {
      Swap(PendingErrors(init), WorkerErrors(last), WorkerErrors(w));
    }
  }

  lemma {:induction false} UpdatePresent<V>(ws: seq<Worker<V>>, i: nat, w: Worker<V>)
    requires i < |ws|
    ensures Present(ws[i := w]) + (if ws[i].Gone? then 0 else 1) == Present(ws) + (if w.Gone? then 0 else 1)
  {
    SplitUpdate(ws, i, w);
    if i < |ws| - 1 {
      UpdatePresent(ws[..|ws| - 1], i, w);
    }
  }

  lemma {:induction false} AllGone<V>(ws: seq<Worker<V>>)
    ensures Present(ws) == 0 <==> forall i :: 0 <= i < |ws| ==> ws[i].Gone?
    ensures Present(ws) == 0 ==> PendingResults(ws) == multiset{} && PendingErrors(ws) == multiset{}
  {
    if ws != [] {
      AllGone(ws[..|ws| - 1]);
    }
  }

  // ----- the invariant -----

  ghost function Held<X>(r: Reader<X>): multiset<X> {
    if r.Holding? then multiset{r.x} else multiset{}
  }

  ghost predicate Control<V>(s: Net<V>) {
    && s.wg == Present(s.workers)
    && s.readersWg == (if s.resultReader.Exited? then 0 else 1) + (if s.errorReader.Exited? then 0 else 1)
    && (!s.caller.WaitWorkers? ==> s.wg == 0)
    && (s.resultsOpen <==> s.caller.WaitWorkers? || s.caller.CloseResults?)
    && (s.errorsOpen <==> s.resultsOpen || s.caller.CloseErrors?)
    && (s.resultReader.Exited? ==> !s.resultsOpen)
    && (s.errorReader.Exited? ==> !s.errorsOpen)
    && (s.caller.Returned? ==> s.readersWg == 0)
  }

  /** Nothing owed is lost or duplicated: it is appended, in a reader's hand, or still to be sent. */
  ghost predicate Accounted<V>(s: Net<V>) {
    && multiset(s.results) + Held(s.resultReader) + PendingResults(s.workers) == s.owedResults
    && multiset(s.errs) + Held(s.errorReader) + PendingErrors(s.workers) == s.owedErrors
  }

  ghost predicate Inv<V>(s: Net<V>) {
    Control(s) && Accounted(s)
  }

  lemma {:induction false} StartInv<V>(n: nat)
    ensures Inv(Start<V>(n))
  {
    StartPending<V>(n);
  }

  lemma {:induction false} StartPending<V>(n: nat)
    ensures var ws := Start<V>(n).workers;
            Present(ws) == n && PendingResults(ws) == multiset{} && PendingErrors(ws) == multiset{}
  {
    if n > 0 {
      StartPending<V>(n - 1);
      assert Start<V>(n).workers[..n - 1] == Start<V>(n - 1).workers;
    }
  }

  lemma {:induction false} StepControl<V>(s: Net<V>, a: Action<V>)
    requires Control(s) && Enabled(s, a)
    ensures Control(Do(s, a))
  {
    match a
    case Begin(i, todo, panic) => UpdatePresent(s.workers, i, Running(todo, panic));
    case SendResult(i) => UpdatePresent(s.workers, i, AfterSend(s.workers[i]));
    case SendError(i) => UpdatePresent(s.workers, i, AfterSend(s.workers[i]));
    case Finish(i) => UpdatePresent(s.workers, i, Do(s, a).workers[i]);
    case Done(i) => UpdatePresent(s.workers, i, Gone);
    case _ =>
  }

  /** Replacing a worker by one that owes the same. */
  lemma {:induction false} SameOwed<V>(ws: seq<Worker<V>>, i: nat, w: Worker<V>)
    requires i < |ws|
    ensures WorkerResults(w) == WorkerResults(ws[i]) ==> PendingResults(ws[i := w]) == PendingResults(ws)
    ensures WorkerErrors(w) == WorkerErrors(ws[i]) ==> PendingErrors(ws[i := w]) == PendingErrors(ws)
  {
    UpdateResults(ws, i, w);
    UpdateErrors(ws, i, w);
    if WorkerResults(w) == WorkerResults(ws[i]) {
      Cancel(PendingResults(ws[i := w]), PendingResults(ws), WorkerResults(w));
    }
    if WorkerErrors(w) == WorkerErrors(ws[i]) {
      Cancel(PendingErrors(ws[i := w]), PendingErrors(ws), WorkerErrors(w));
    }
  }

  lemma {:induction false} NextResult<V>(w: Worker<V>)
    requires NextSend(w).Some? && NextSend(w).value.Result?
    ensures WorkerResults(w) == multiset{NextSend(w).value.value} + WorkerResults(AfterSend(w))
    ensures WorkerErrors(AfterSend(w)) == WorkerErrors(w)
  {
  }

  lemma {:induction false} NextError<V>(w: Worker<V>)
    requires NextSend(w).Some? && NextSend(w).value.Failure?
    ensures WorkerErrors(w) == multiset{NextSend(w).value.msg} + WorkerErrors(AfterSend(w))
    ensures WorkerResults(AfterSend(w)) == WorkerResults(w)
  {
  }

  lemma Associate<X>(a: multiset<X>, b: multiset<X>, c: multiset<X>)
    ensures (a + b) + c == a + (b + c)
  {
  }

  /** If p' owes one v less than p, then p is p' and that v. */
  lemma TakeOne<X>(p': multiset<X>, p: multiset<X>, v: X, r: multiset<X>, r': multiset<X>)
    requires p' + r == p + r' && r == multiset{v} + r'
    ensures p == p' + multiset{v}
  {
    Associate(p', multiset{v}, r');
    Cancel(p' + multiset{v}, p, r');
  }

  lemma InHand<X>(m: multiset<X>, p: multiset<X>, p': multiset<X>, v: X)
    requires p == p' + multiset{v}
    ensures m + multiset{} + p == m + multiset{v} + p'
  {
  }

  lemma {:induction false} SendResultAccounts<V>(s: Net<V>, i: nat)
    requires Accounted(s) && Enabled(s, SendResult(i))
    ensures Accounted(Do(s, SendResult(i)))
  {
    var w, w', v := s.workers[i], AfterSend(s.workers[i]), NextSend(s.workers[i]).value.value;
    var ws' := s.workers[i := w'];
    NextResult(w);
    SameOwed(s.workers, i, w');
    UpdateResults(s.workers, i, w');
    TakeOne(PendingResults(ws'), PendingResults(s.workers), v, WorkerResults(w), WorkerResults(w'));
    InHand(multiset(s.results), PendingResults(s.workers), PendingResults(ws'), v);
  }

  lemma {:induction false} SendErrorAccounts<V>(s: Net<V>, i: nat)
    requires Accounted(s) && Enabled(s, SendError(i))
    ensures Accounted(Do(s, SendError(i)))
  {
    var w, w', m := s.workers[i], AfterSend(s.workers[i]), NextSend(s.workers[i]).value.msg;
    var ws' := s.workers[i := w'];
    NextError(w);
    SameOwed(s.workers, i, w');
    UpdateErrors(s.workers, i, w');
    TakeOne(PendingErrors(ws'), PendingErrors(s.workers), m, WorkerErrors(w), WorkerErrors(w'));
    InHand(multiset(s.errs), PendingErrors(s.workers), PendingErrors(ws'), m);
  }

  lemma AddBoth<X>(m: multiset<X>, h: multiset<X>, p: multiset<X>, p': multiset<X>, o: multiset<X>, n: multiset<X>)
    requires m + h + p == o && p' + multiset{} == p + n
    ensures m + h + p' == o + n
  {
    assert p' == p + n;
    Associate(m + h, p, n);
  }

  /** A worker that owed nothing takes on a script. */
  lemma {:induction false} BeginAccounts<V>(s: Net<V>, a: Action<V>)
    requires Accounted(s) && Enabled(s, a) && a.Begin?
    ensures Accounted(Do(s, a))
  {
    var w := Running(a.todo, a.panic);
    var ws' := s.workers[a.i := w];
    UpdateResults(s.workers, a.i, w);
    UpdateErrors(s.workers, a.i, w);
    AddBoth(multiset(s.results), Held(s.resultReader), PendingResults(s.workers), PendingResults(ws'),
            s.owedResults, WorkerResults(w));
    AddBoth(multiset(s.errs), Held(s.errorReader), PendingErrors(s.workers), PendingErrors(ws'),
            s.owedErrors, WorkerErrors(w));
  }

  /** Finishing moves a pending panic into the deferred recover, and leaving changes nothing. */
  lemma {:induction false} EndOwesSame<V>(w: Worker<V>)
    requires w.Running? && w.todo == []
    ensures var w' := if w.panic.Some? then Recovering(w.panic.value) else Leaving;
            WorkerResults(w') == WorkerResults(w) && WorkerErrors(w') == WorkerErrors(w)
  {
  }

  /** A step that replaces one worker by one owing the same, and touches neither list nor reader. */
  lemma {:induction false} QuietAccounts<V>(s: Net<V>, s': Net<V>, i: nat, w: Worker<V>)
    requires Accounted(s) && i < |s.workers|
    requires WorkerResults(w) == WorkerResults(s.workers[i]) && WorkerErrors(w) == WorkerErrors(s.workers[i])
    requires s'.workers == s.workers[i := w] && s'.results == s.results && s'.errs == s.errs
    requires s'.resultReader == s.resultReader && s'.errorReader == s.errorReader
    requires s'.owedResults == s.owedResults && s'.owedErrors == s.owedErrors
    ensures Accounted(s')
  {
    SameOwed(s.workers, i, w);
  }

  /** A step of a reader or of the caller. */
  lemma {:induction false} ReaderAccounts<V>(s: Net<V>, s': Net<V>)
    requires Accounted(s) && s'.workers == s.workers
    requires s'.owedResults == s.owedResults && s'.owedErrors == s.owedErrors
    requires multiset(s'.results) + Held(s'.resultReader) == multiset(s.results) + Held(s.resultReader)
    requires multiset(s'.errs) + Held(s'.errorReader) == multiset(s.errs) + Held(s.errorReader)
    ensures Accounted(s')
  {
  }

  lemma {:induction false} AppendedHeld<X>(xs: seq<X>, x: X)
    ensures multiset(xs + [x]) + multiset{} == multiset(xs) + multiset{x}
  {
  }

  lemma {:induction false} AppendAccounts<V>(s: Net<V>, a: Action<V>)
    requires Accounted(s) && Enabled(s, a) && (a.AppendResult? || a.AppendError?)
    ensures Accounted(Do(s, a))
  {
    if a.AppendResult? {
      AppendedHeld(s.results, s.resultReader.x);
    } else {
      AppendedHeld(s.errs, s.errorReader.x);
    }
    ReaderAccounts(s, Do(s, a));
  }

  lemma {:induction false} FinishAccounts<V>(s: Net<V>, i: nat)
    requires Accounted(s) && Enabled(s, Finish(i))
    ensures Accounted(Do(s, Finish(i)))
  {
    EndOwesSame(s.workers[i]);
    QuietAccounts(s, Do(s, Finish(i)), i, Do(s, Finish(i)).workers[i]);
  }

  lemma {:induction false} DoneAccounts<V>(s: Net<V>, i: nat)
    requires Accounted(s) && Enabled(s, Done(i))
    ensures Accounted(Do(s, Done(i)))
  {
    QuietAccounts(s, Do(s, Done(i)), i, Gone);
  }

  lemma {:induction false} ExitResultsAccounts<V>(s: Net<V>)
    requires Accounted(s) && Enabled(s, ExitResults)
    ensures Accounted(Do(s, ExitResults))
  {
  }

  lemma {:induction false} ExitErrorsAccounts<V>(s: Net<V>)
    requires Accounted(s) && Enabled(s, ExitErrors)
    ensures Accounted(Do(s, ExitErrors))
  {
    ReaderAccounts(s, Do(s, ExitErrors));
  }

  lemma {:induction false} AdvanceAccounts<V>(s: Net<V>)
    requires Accounted(s) && Enabled(s, Advance)
    ensures Accounted(Do(s, Advance))
  {
  }

  lemma {:induction false} StepAccounts<V>(s: Net<V>, a: Action<V>)
    requires Accounted(s) && Enabled(s, a)
    ensures Accounted(Do(s, a))
  {
    if a.Begin? {
      BeginAccounts(s, a);
    } else if a.SendResult? {
      SendResultAccounts(s, a.i);
    } else if a.SendError? {
      SendErrorAccounts(s, a.i);
    } else if a.Finish? {
      FinishAccounts(s, a.i);
    } else if a.Done? {
      DoneAccounts(s, a.i);
    } else if a.AppendResult? || a.AppendError? {
      AppendAccounts(s, a);
    } else if a.Advance? {
      AdvanceAccounts(s);
    } else if a.ExitResults? {
      ExitResultsAccounts(s);
    } else {
      ExitErrorsAccounts(s);
    }
  }

  lemma StepInv<V>(s: Net<V>, a: Action<V>)
    requires Inv(s) && Enabled(s, a)
    ensures Inv(Do(s, a))
  {
    StepControl(s, a);
    StepAccounts(s, a);
  }

  // ----- the three guarantees, state by state -----

  /** A worker about to send finds its channel open. */
  lemma {:induction false} SendsFindOpenChannels<V>(s: Net<V>, i: nat)
    requires Inv(s) && i < |s.workers| && NextSend(s.workers[i]).Some?
    ensures s.resultsOpen && s.errorsOpen
  {
    AllGone(s.workers);
  }

  /** A worker that is not gone can go on when both readers are free. */
  lemma {:induction false} WorkerCanStep<V(!new)>(s: Net<V>, i: nat)
    requires Inv(s) && i < |s.workers| && !s.workers[i].Gone?
    requires !s.resultReader.Holding? && !s.errorReader.Holding? && s.wg > 0
    ensures exists a: Action<V> :: Enabled(s, a)
  {
    match s.workers[i] {
      case Ready => assert Enabled(s, Begin(i, [], None));
      case Running(todo, _) =>
        if todo == [] { assert Enabled(s, Finish(i)); }
        else if todo[0].Result? { assert Enabled(s, SendResult(i)); }
        else { assert Enabled(s, SendError(i)); }
      case Recovering(_) => assert Enabled(s, SendError(i));
      case Leaving => assert Enabled(s, Done(i));
    }
  }

  /** Until the call returns some goroutine can step. */
  lemma {:induction false} NeverStuck<V(!new)>(s: Net<V>)
    requires Inv(s) && !s.caller.Returned?
    ensures exists a: Action<V> :: Enabled(s, a)
  {
    if s.resultReader.Holding? {
      assert Enabled(s, AppendResult);
    } else if s.errorReader.Holding? {
      assert Enabled(s, AppendError);
    } else if s.wg > 0 {
      AllGone(s.workers);
      var i :| 0 <= i < |s.workers| && !s.workers[i].Gone?;
      WorkerCanStep(s, i);
    } else if s.caller.WaitReaders? && s.readersWg > 0 {
      if s.resultReader.Waiting? { assert Enabled(s, ExitResults); } else { assert Enabled(s, ExitErrors); }
    } else {
      assert Enabled(s, Advance);
    }
  }

  /** On return the two lists are, as multisets, exactly what the workers were going to send, the errors of
      recovered panics included, and every worker has run to its end. */
  lemma {:induction false} ReturnsEverything<V>(s: Net<V>)
    requires Inv(s) && s.caller.Returned?
    ensures multiset(s.results) == s.owedResults && multiset(s.errs) == s.owedErrors
    ensures forall i :: 0 <= i < |s.workers| ==> s.workers[i].Gone?
  {
    AllGone(s.workers);
  }

  // ----- whole runs -----

  ghost predicate IsRun<V>(s: Net<V>, acts: seq<Action<V>>)
    decreases |acts|
  {
    acts == [] || (Enabled(s, acts[0]) && IsRun(Do(s, acts[0]), acts[1..]))
  }

  ghost function Final<V>(s: Net<V>, acts: seq<Action<V>>): Net<V>
    requires IsRun(s, acts)
    decreases |acts|
  {
    if acts == [] then s else Final(Do(s, acts[0]), acts[1..])
  }

  ghost function PanicOf(panic: Option<string>): multiset<string> {
    if panic.Some? then multiset{panic.value} else multiset{}
  }

  /** Every result the calls made along a run were going to send. */
  ghost function SentResults<V>(acts: seq<Action<V>>): multiset<V> {
    if acts == [] then multiset{}
    else (if acts[0].Begin? then ResultsOf(acts[0].todo) else multiset{}) + SentResults(acts[1..])
  }

  /** Every error they were going to send, and the errors of their panics. */
  ghost function SentErrors<V>(acts: seq<Action<V>>): multiset<string> {
    if acts == [] then multiset{}
    else (if acts[0].Begin? then ErrorsOf(acts[0].todo) + PanicOf(acts[0].panic) else multiset{})
         + SentErrors(acts[1..])
  }

  lemma {:induction false} RunInv<V>(s: Net<V>, acts: seq<Action<V>>)
    requires Inv(s) && IsRun(s, acts)
    ensures Inv(Final(s, acts))
    decreases |acts|
  {
    if acts != [] {
      StepInv(s, acts[0]);
      RunInv(Do(s, acts[0]), acts[1..]);
    }
  }

  lemma {:induction false} RunOwes<V>(s: Net<V>, acts: seq<Action<V>>)
    requires IsRun(s, acts)
    ensures Final(s, acts).owedResults == s.owedResults + SentResults(acts)
    ensures Final(s, acts).owedErrors == s.owedErrors + SentErrors(acts)
    decreases |acts|
  {
    if acts != [] {
      RunOwes(Do(s, acts[0]), acts[1..]);
    }
  }

  ghost predicate NoSendOnClosed<V>(s: Net<V>) {
    forall i :: 0 <= i < |s.workers| && NextSend(s.workers[i]).Some? ==> s.resultsOpen && s.errorsOpen
  }

  ghost predicate Stuck<V(!new)>(s: Net<V>) {
    forall a: Action<V> :: !Enabled(s, a)
  }

  lemma {:induction false} StateGuarantees<V(!new)>(s: Net<V>)
    requires Inv(s)
    ensures NoSendOnClosed(s) && (s.caller.Returned? || !Stuck(s))
    ensures s.caller.Returned? ==> multiset(s.results) == s.owedResults && multiset(s.errs) == s.owedErrors
  {
    forall i | 0 <= i < |s.workers| && NextSend(s.workers[i]).Some?
      ensures s.resultsOpen && s.errorsOpen
    {
      SendsFindOpenChannels(s, i);
    }
    if s.caller.Returned? {
      ReturnsEverything(s);
    } else {
      NeverStuck(s);
    }
  }

  /** For every interleaving of n workers with any finite scripts: no pending send faces a closed channel, the
      system is not stuck before it returns, and on return the lists hold exactly what was sent. */
  lemma {:induction false} DoParallelDelivers<V(!new)>(n: nat, acts: seq<Action<V>>)
    requires IsRun(Start<V>(n), acts)
    ensures var s := Final(Start<V>(n), acts);
      && NoSendOnClosed(s)
      && (s.caller.Returned? || !Stuck(s))
      && (s.caller.Returned? ==> multiset(s.results) == SentResults(acts) && multiset(s.errs) == SentErrors(acts))
  {
    StartInv<V>(n);
    RunInv(Start<V>(n), acts);
    RunOwes(Start<V>(n), acts);
    StateGuarantees(Final(Start<V>(n), acts));
  }

  // ----- every run ends -----

  ghost function Effort<V>(w: Worker<V>): nat {
    match w
    case Ready => 0
    case Running(todo, panic) => 2 * |todo| + (if panic.Some? then 4 else 2)
    case Recovering(_) => 3
    case Leaving => 1
    case Gone => 0
  }

  ghost function Efforts<V>(ws: seq<Worker<V>>): nat {
    if ws == [] then 0 else Efforts(ws[..|ws| - 1]) + Effort(ws[|ws| - 1])
  }

  lemma {:induction false} UpdateEfforts<V>(ws: seq<Worker<V>>, i: nat, w: Worker<V>)
    requires i < |ws|
    ensures Efforts(ws[i := w]) + Effort(ws[i]) == Efforts(ws) + Effort(w)
  {
    SplitUpdate(ws, i, w);
    if i < |ws| - 1 {
      UpdateEfforts(ws[..|ws| - 1], i, w);
    }
  }

  ghost function ReaderEffort<X>(r: Reader<X>): nat {
    match r
    case Waiting => 1
    case Holding(_) => 2
    case Exited => 0
  }

  ghost function CallerEffort(c: Caller): nat {
    match c
    case WaitWorkers => 4
    case CloseResults => 3
    case CloseErrors => 2
    case WaitReaders => 1
    case Returned => 0
  }

  ghost function Work<V>(s: Net<V>): nat {
    Efforts(s.workers) + ReaderEffort(s.resultReader) + ReaderEffort(s.errorReader) + CallerEffort(s.caller)
  }

  /** What calling a worker with a script adds. */
  ghost function Load<V>(a: Action<V>): nat {
    if a.Begin? then 2 * |a.todo| + 5 else 0
  }

  ghost function Loads<V>(acts: seq<Action<V>>): nat {
    if acts == [] then 0 else Load(acts[0]) + Loads(acts[1..])
  }

  lemma {:induction false} StepWorks<V>(s: Net<V>, a: Action<V>)
    requires Enabled(s, a)
    ensures Work(Do(s, a)) + 1 <= Work(s) + Load(a)
  {
    if a.SendResult? || a.SendError? {
      SendWorks(s, a);
    } else if a.Begin? || a.Finish? || a.Done? {
      WorkerWorks(s, a);
    } else {
      assert Do(s, a).workers == s.workers;
    }
  }

  lemma {:induction false} WorkerWorks<V>(s: Net<V>, a: Action<V>)
    requires Enabled(s, a) && (a.Begin? || a.Finish? || a.Done?)
    ensures Work(Do(s, a)) + 1 <= Work(s) + Load(a)
  {
    UpdateEfforts(s.workers, a.i, Do(s, a).workers[a.i]);
    assert s.workers[a.i := Do(s, a).workers[a.i]] == Do(s, a).workers;
  }

  lemma {:induction false} SendWorks<V>(s: Net<V>, a: Action<V>)
    requires Enabled(s, a) && (a.SendResult? || a.SendError?)
    ensures Work(Do(s, a)) + 1 <= Work(s) + Load(a)
  {
    UpdateEfforts(s.workers, a.i, AfterSend(s.workers[a.i]));
  }

  /** Every run is finite: its length is bounded by the scripts the workers were given. */
  lemma {:induction false} RunsEnd<V>(s: Net<V>, acts: seq<Action<V>>)
    requires IsRun(s, acts)
    ensures |acts| + Work(Final(s, acts)) <= Work(s) + Loads(acts)
    decreases |acts|
  {
    if acts != [] {
      StepWorks(s, acts[0]);
      RunsEnd(Do(s, acts[0]), acts[1..]);
    }
  }
}
