/**
 * `handle_redirection`: the scan of an argument vector for `<`, `>` and
 * `>>`.
 *
 * The scan goes left to right. Each operator takes the very next argument
 * as its file name, whatever that argument is, opens the file, rebinds
 * standard input or output to it and overwrites the operator's slot with
 * NULL; the scan then resumes after the file name. The first operator
 * without a file name, the first failed open and the first failed `dup2`
 * end the scan with -1; the directives applied before stay applied.
 *
 * `Resolve` is the scan as a function of the arguments; `HandleRedirection`
 * is the loop over the array itself, proved against it. Whether a file can
 * be opened, and whether `dup2` onto it succeeds, are given by `Env`.
 */
module Redirect {
  import opened Common

  datatype Mode = In | OutTrunc | OutAppend

  /** One redirection: `< file`, `> file` or `>> file`. */
  datatype Directive = Directive(mode: Mode, file: string)

  /** The redirection operator a token spells, compared with `strcmp`. */
  function OperatorMode(t: string): Option<Mode> {
    if t == ">" then Some(OutTrunc)
    else if t == ">>" then Some(OutAppend)
    else if t == "<" then Some(In)
    else None
  }

  predicate IsRedirection(t: string) {
    OperatorMode(t).Some?
  }

  /** The outcome of `fopen` and of `dup2` for each directive. */
  datatype Env = Env(cannotOpen: set<Directive>, cannotDup: set<Directive>)

  /** Every open and every `dup2` succeeds. */
  const Permissive := Env({}, {})

  datatype RedirError =
    | MissingFile(after: Mode)        // the operator is the last argument
    | CannotOpen(target: Directive)   // `fopen` returned NULL
    | CannotRedirect(target: Directive) // `dup2` returned -1 (the file was opened)

  /** What a standard stream of a process is connected to. */
  datatype Binding = Terminal | PipeRead(pipe: nat) | PipeWrite(pipe: nat) | File(target: Directive)

  datatype Streams = Streams(stdin: Binding, stdout: Binding)

  /**
   * The effect of a scan: the slots overwritten with NULL, the files opened
   * (and so created or truncated), the directives whose `dup2` took effect,
   * in order, and the error that ended the scan, if any.
   */
  datatype Scan = Scan(nulled: set<nat>, opens: seq<Directive>, applied: seq<Directive>, error: Option<RedirError>)

  const Clean := Scan({}, [], [], None)

  /** The scan of `words` (the arguments in front of the NULL) from index `i` on. */
  function Resolve(words: seq<string>, i: nat, env: Env): (r: Scan)
    ensures r.applied <= r.opens && |r.opens| <= |r.applied| + 1
    ensures |r.opens| == |r.applied| + 1 <==> r.error.Some? && r.error.value.CannotRedirect?
    decreases |words| - i
  {
    if i >= |words| then Clean
    else match OperatorMode(words[i])
      case None => Resolve(words, i + 1, env)
      case Some(m) =>
        if i + 1 == |words| then Scan({}, [], [], Some(MissingFile(m)))
        else
          var d := Directive(m, words[i + 1]);
          if d in env.cannotOpen then Scan({}, [], [], Some(CannotOpen(d)))
          else if d in env.cannotDup then Scan({}, [d], [], Some(CannotRedirect(d)))
          else
            var rest := Resolve(words, i + 2, env);
            Scan({i} + rest.nulled, [d] + rest.opens, [d] + rest.applied, rest.error)
  }

  /** The effects of a scan done so far followed by the effects of the rest of it. */
  function Then(done: Scan, rest: Scan): Scan {
    Scan(done.nulled + rest.nulled, done.opens + rest.opens, done.applied + rest.applied, rest.error)
  }

  /** A scan that ends after opening `last` (empty, or one file whose `dup2` failed). */
  lemma ThenStop(done: Scan, last: seq<Directive>, e: Option<RedirError>)
    requires done.error == None
    ensures Then(done, Scan({}, last, [], e)) == Scan(done.nulled, done.opens + last, done.applied, e)
  {
    assert done.nulled + {} == done.nulled;
    assert done.applied + [] == done.applied;
  }

  /** One directive applied at `i`, then the rest of the scan. */
  lemma ThenStep(done: Scan, i: nat, d: Directive, rest: Scan)
    ensures Then(done, Scan({i} + rest.nulled, [d] + rest.opens, [d] + rest.applied, rest.error))
         == Then(Scan(done.nulled + {i}, done.opens + [d], done.applied + [d], None), rest)
  {
    assert done.opens + ([d] + rest.opens) == done.opens + [d] + rest.opens;
    assert done.applied + ([d] + rest.applied) == done.applied + [d] + rest.applied;
  }

  /** Rebinding one stream: `dup2(fd, STDIN_FILENO)` for `<`, `dup2(fd, STDOUT_FILENO)` otherwise. */
  function Bind(s: Streams, d: Directive): (r: Streams)
    ensures StreamOf(r, d.mode == In) == File(d)
    ensures StreamOf(r, d.mode != In) == StreamOf(s, d.mode != In)
  {
    if d.mode == In then s.(stdin := File(d)) else s.(stdout := File(d))
  }

  /** The streams after the directives `ds` took effect, one after another. */
  function BindAll(s: Streams, ds: seq<Directive>): (r: Streams)
    ensures r.stdin == s.stdin || r.stdin.File?
    ensures r.stdout == s.stdout || r.stdout.File?
  {
    if ds == [] then s else Bind(BindAll(s, ds[..|ds| - 1]), ds[|ds| - 1])
  }

  /** The argument vector with the slots in `ns` overwritten with NULL. */
  function NullOut(a: seq<Option<string>>, ns: set<nat>): seq<Option<string>> {
    seq(|a|, k requires 0 <= k < |a| => if k in ns then None else a[k])
  }

  /** With no slot to overwrite, the vector is left as it is. */
  lemma NullOutNothing(a: seq<Option<string>>)
    ensures NullOut(a, {}) == a
  {
  }

  /** A slot past every nulled one still holds its original value. */
  lemma SlotAt(a: seq<Option<string>>, ns: set<nat>, i: nat)
    requires i < |a| && forall n :: n in ns ==> n < i
    ensures NullOut(a, ns)[i] == a[i]
  {
  }

  /** `args[i] = NULL`: one more operator slot overwritten. */
  method Cut(args: array<Option<string>>, i: nat, ghost orig: seq<Option<string>>, ghost ns: set<nat>)
    requires i < args.Length && args[..] == NullOut(orig, ns)
    modifies args
    ensures args[..] == NullOut(orig, ns + {i})
  {
    args[i] := None;
  }

  /** A NULL-terminated vector has fewer arguments than slots. */
  lemma ArgvShort(a: seq<Option<string>>)
    requires Terminated(a)
    ensures |Argv(a)| < |a|
  {
  }

  /** What the loop of `handle_redirection` has done when it reaches slot `i`. */
  ghost predicate Progress(words: seq<string>, env: Env, streams: Streams, i: nat,
                           nulled: set<nat>, opens: seq<Directive>, applied: seq<Directive>, bound: Streams) {
    && i <= |words|
    && Resolve(words, 0, env) == Then(Scan(nulled, opens, applied, None), Resolve(words, i, env))
    && bound == BindAll(streams, applied)
    && forall n :: n in nulled ==> n < i
  }

  /** The scan stops at `i` after opening `last`: the whole scan fails with what was done so far. */
  lemma Stopped(words: seq<string>, env: Env, streams: Streams, i: nat,
                nulled: set<nat>, opens: seq<Directive>, applied: seq<Directive>, bound: Streams, last: seq<Directive>)
    requires Progress(words, env, streams, i, nulled, opens, applied, bound)
    requires Resolve(words, i, env).error != None
    requires Resolve(words, i, env) == Scan({}, last, [], Resolve(words, i, env).error)
    ensures var r := Resolve(words, 0, env);
      r.error != None && r.nulled == nulled && r.opens == opens + last && bound == BindAll(streams, r.applied)
  {
    ThenStop(Scan(nulled, opens, applied, None), last, Resolve(words, i, env).error);
  }

  /** The scan applies `d` at `i` and goes on after the file name. */
  lemma Advanced(words: seq<string>, env: Env, streams: Streams, i: nat,
                 nulled: set<nat>, opens: seq<Directive>, applied: seq<Directive>, bound: Streams, d: Directive)
    requires Progress(words, env, streams, i, nulled, opens, applied, bound) && i + 2 <= |words|
    requires var rest := Resolve(words, i + 2, env);
      Resolve(words, i, env) == Scan({i} + rest.nulled, [d] + rest.opens, [d] + rest.applied, rest.error)
    ensures Progress(words, env, streams, i + 2, nulled + {i}, opens + [d], applied + [d], Bind(bound, d))
  {
    assert (applied + [d])[..|applied|] == applied;
    ThenStep(Scan(nulled, opens, applied, None), i, d, Resolve(words, i + 2, env));
  }

  /** An ordinary argument at `i` is passed over. */
  lemma Passed(words: seq<string>, env: Env, streams: Streams, i: nat,
               nulled: set<nat>, opens: seq<Directive>, applied: seq<Directive>, bound: Streams)
    requires Progress(words, env, streams, i, nulled, opens, applied, bound)
    requires i < |words| && !IsRedirection(words[i])
    ensures Progress(words, env, streams, i + 1, nulled, opens, applied, bound)
  {
  }

  /** At the terminator the scan is complete and without error. */
  lemma Finished(words: seq<string>, env: Env, streams: Streams, i: nat,
                 nulled: set<nat>, opens: seq<Directive>, applied: seq<Directive>, bound: Streams)
    requires Progress(words, env, streams, i, nulled, opens, applied, bound) && i == |words|
    ensures Resolve(words, 0, env) == Scan(nulled, opens, applied, None)
  {
    ThenStop(Scan(nulled, opens, applied, None), [], None);
  }

  /** What the loop of `handle_redirection` reads at slot `i` of the partly nulled vector. */
  lemma Reading(orig: seq<Option<string>>, nulled: set<nat>, i: nat)
    requires Terminated(orig) && i <= |Argv(orig)|
    requires forall n :: n in nulled ==> n < i
    ensures i < |orig| && NullOut(orig, nulled)[i] == orig[i]
    ensures orig[i] == None <==> i == |Argv(orig)|
    ensures i < |Argv(orig)| ==> orig[i] == Some(Argv(orig)[i])
  {
    ArgvShort(orig);
    SlotAt(orig, nulled, i);
  }

  /**
   * One operator at slot `i`: check for the file name, open the file,
   * rebind the stream and overwrite the operator's slot. Either the scan
   * goes on after the file name, or it has ended with an error.
   */
  method ApplyDirective(args: array<Option<string>>, env: Env, streams: Streams, i: nat, bound: Streams, opens: seq<Directive>,
                        ghost orig: seq<Option<string>>, ghost words: seq<string>, ghost nulled: set<nat>, ghost applied: seq<Directive>)
    returns (ok: bool, bound': Streams, opens': seq<Directive>, ghost nulled': set<nat>, ghost applied': seq<Directive>)
    requires words == Argv(orig) && |words| < |orig| && i < |words|
    requires args[..] == NullOut(orig, nulled)
    requires Progress(words, env, streams, i, nulled, opens, applied, bound)
    requires IsRedirection(words[i])
    modifies args
    ensures args[..] == NullOut(orig, nulled')
    ensures ok ==> Progress(words, env, streams, i + 2, nulled', opens', applied', bound')
    ensures !ok ==> var r := Resolve(words, 0, env);
      r.error != None && r.nulled == nulled' && r.opens == opens' && bound' == BindAll(streams, r.applied)
  {
    SlotAt(orig, nulled, i);
    SlotAt(orig, nulled, i + 1);
    var m := OperatorMode(args[i].value).value;
    nulled', applied', bound', opens' := nulled, applied, bound, opens;
    if args[i + 1] == None {
      assert Resolve(words, i, env) == Scan({}, [], [], Some(MissingFile(m)));
      Stopped(words, env, streams, i, nulled, opens, applied, bound, []);
      return false, bound', opens', nulled', applied';
    }
    var d := Directive(m, args[i + 1].value);
    if d in env.cannotOpen {
      assert Resolve(words, i, env) == Scan({}, [], [], Some(CannotOpen(d)));
      Stopped(words, env, streams, i, nulled, opens, applied, bound, []);
      return false, bound', opens', nulled', applied';
    }
    opens' := opens + [d];
    if d in env.cannotDup {
      assert Resolve(words, i, env) == Scan({}, [d], [], Some(CannotRedirect(d)));
      Stopped(words, env, streams, i, nulled, opens, applied, bound, [d]);
      return false, bound', opens', nulled', applied';
    }
    Advanced(words, env, streams, i, nulled, opens, applied, bound, d);
    bound' := Bind(bound, d);
    applied' := applied + [d];
    Cut(args, i, orig, nulled);
    nulled' := nulled + {i};
    ok := true;
  }

  /**
   * `handle_redirection(args)` on a NULL-terminated vector, with the process
   * streams `streams` on entry. It overwrites in `args` exactly the operator
   * slots the scan reaches, returns 0 or, after the first error, -1, and
   * leaves the streams rebound by the directives applied, in order.
   */
  method HandleRedirection(args: array<Option<string>>, env: Env, streams: Streams)
    returns (rc: int, bound: Streams, opens: seq<Directive>)
    requires Terminated(args[..])
    modifies args
    ensures var r := Resolve(Argv(old(args[..])), 0, env);
      && args[..] == NullOut(old(args[..]), r.nulled)
      && rc == (if r.error == None then 0 else -1)
      && bound == BindAll(streams, r.applied)
      && opens == r.opens
  {
    ghost var orig := args[..];
    ghost var words := Argv(orig);
    ArgvShort(orig);
    ghost var nulled: set<nat> := {};
    ghost var applied: seq<Directive> := [];
    bound, opens := streams, [];
    var i := 0;
    NullOutNothing(orig);
    Reading(orig, nulled, i);
    while args[i] != None
      invariant args[..] == NullOut(orig, nulled)
      invariant Progress(words, env, streams, i, nulled, opens, applied, bound)
      invariant i < args.Length && args[i] == orig[i]
      decreases |words| - i
    {
      if IsRedirection(args[i].value) {
        var ok;
        ok, bound, opens, nulled, applied := ApplyDirective(args, env, streams, i, bound, opens, orig, words, nulled, applied);
        if !ok {
          rc := -1;
          return;
        }
        i := i + 2;
      } else {
        Passed(words, env, streams, i, nulled, opens, applied, bound);
        i := i + 1;
      }
      Reading(orig, nulled, i);
    }
    Finished(words, env, streams, i, nulled, opens, applied, bound);
    rc := 0;
  }

  // ---------------------------------------------------------------------
  // Properties of the scan

  /** The index of the first redirection operator at or after `i`, or `|words|` if there is none. */
  function FirstRedirection(words: seq<string>, i: nat): (f: nat)
    requires i <= |words|
    ensures i <= f <= |words|
    ensures f < |words| ==> IsRedirection(words[f])
    ensures forall k :: i <= k < f ==> !IsRedirection(words[k])
    decreases |words| - i
  {
    if i == |words| || IsRedirection(words[i]) then i else FirstRedirection(words, i + 1)
  }

  /** Ordinary arguments are passed over: the scan effectively starts at the first operator. */
  lemma {:induction false} ScanSkipsWords(words: seq<string>, i: nat, env: Env)
    requires i <= |words|
    ensures Resolve(words, i, env) == Resolve(words, FirstRedirection(words, i), env)
    decreases |words| - i
  {
    if i < |words| && !IsRedirection(words[i]) {
      ScanSkipsWords(words, i + 1, env);
    }
  }

  /**
   * Every slot the scan overwrites holds a redirection operator followed by
   * a file name, at or after the first operator; a scan without error
   * overwrites the first operator; the directives applied are a prefix of
   * the files opened, and all of them when there is no error.
   */
  lemma {:induction false} ScanShape(words: seq<string>, i: nat, env: Env)
    requires i <= |words|
    ensures var r := Resolve(words, i, env);
      && (forall n :: n in r.nulled ==> FirstRedirection(words, i) <= n < |words| - 1 && IsRedirection(words[n]))
      && (r.error == None && FirstRedirection(words, i) < |words| ==> FirstRedirection(words, i) in r.nulled)
      && r.applied <= r.opens
      && (r.error == None ==> r.applied == r.opens)
    decreases |words| - i
  {
    if i < |words| {
      if IsRedirection(words[i]) {
        if i + 1 < |words| {
          ScanShape(words, i + 2, env);
        }
      } else {
        ScanShape(words, i + 1, env);
      }
    }
  }

  /**
   * The argument vector left for `execvp` after a successful scan holds
   * exactly the arguments in front of the first redirection operator: any
   * argument after a redirection never reaches the program.
   */
  lemma ExecArgvStopsAtFirstRedirection(args: seq<Option<string>>, env: Env)
    requires Terminated(args)
    requires Resolve(Argv(args), 0, env).error == None
    ensures var words := Argv(args);
      Argv(NullOut(args, Resolve(words, 0, env).nulled)) == words[..FirstRedirection(words, 0)]
  {
    var words := Argv(args);
    var r := Resolve(words, 0, env);
    var f := FirstRedirection(words, 0);
    ScanShape(words, 0, env);
    ArgvNulled(args, r.nulled, f);
  }

  /** Nulling slot `f` of a vector, and only slots from `f` on, cuts its arguments to the first `f`. */
  lemma ArgvNulled(args: seq<Option<string>>, ns: set<nat>, f: nat)
    requires Terminated(args) && f <= |Argv(args)|
    requires forall n :: n in ns ==> f <= n
    requires f < |Argv(args)| ==> f in ns
    ensures Argv(NullOut(args, ns)) == Argv(args)[..f]
  {
    var words := Argv(args);
    var b := NullOut(args, ns);
    ArgvShort(args);
    forall k | 0 <= k < f
      ensures b[k] == Some(words[k])
    {
      assert k !in ns;
    }
    ArgvStopsAt(b, f);
  }

  /** Whether `d` rebinds standard input (`input`) or standard output (`!input`). */
  predicate Rebinds(d: Directive, input: bool) {
    (d.mode == In) == input
  }

  /** The index of the last directive rebinding the given stream, or -1 when none does. */
  function LastOf(ds: seq<Directive>, input: bool): (r: int)
    ensures -1 <= r < |ds|
    ensures r == -1 <==> forall k :: 0 <= k < |ds| ==> !Rebinds(ds[k], input)
    ensures r >= 0 ==> Rebinds(ds[r], input) && forall m :: r < m < |ds| ==> !Rebinds(ds[m], input)
  {
    if ds == [] then -1
    else if Rebinds(ds[|ds| - 1], input) then |ds| - 1
    else
      var pre := ds[..|ds| - 1];
      var r := LastOf(pre, input);
      assert forall k :: 0 <= k < |pre| ==> pre[k] == ds[k];
      r
  }

  /** The stream a binding selects. */
  function StreamOf(s: Streams, input: bool): Binding {
    if input then s.stdin else s.stdout
  }

  /**
   * The last `<` decides standard input and the last `>` or `>>` decides
   * standard output; with none of a kind, that stream is left as it was.
   */
  lemma {:induction false} LastDirectiveWins(s: Streams, ds: seq<Directive>, input: bool)
    ensures var k := LastOf(ds, input);
      StreamOf(BindAll(s, ds), input) == if k == -1 then StreamOf(s, input) else File(ds[k])
    decreases |ds|
  {
    if ds != [] {
      var pre, last := ds[..|ds| - 1], ds[|ds| - 1];
      LastDirectiveWins(s, pre, input);
      if !Rebinds(last, input) {
        var k := LastOf(pre, input);
        assert LastOf(ds, input) == k;
        assert k != -1 ==> pre[k] == ds[k];
      }
    }
  }

  /**
   * A failed open or `dup2` only cuts the scan short: it opens, applies and
   * overwrites a prefix of what the scan does when every file opens, a
   * failed open names the very next directive of that scan, and a scan that
   * meets no failure is that scan.
   */
  lemma {:induction false} FailureCutsScan(words: seq<string>, i: nat, env: Env)
    requires i <= |words|
    ensures var r, p := Resolve(words, i, env), Resolve(words, i, Permissive);
      && r.opens <= p.opens && r.applied <= p.applied && r.nulled <= p.nulled
      && (r.error.Some? && r.error.value.CannotOpen? ==> |r.opens| < |p.opens| && p.opens[|r.opens|] == r.error.value.target)
      && (r.error == None || r.error.value.MissingFile? ==> r == p)
      && (p.error == None || p.error.value.MissingFile?)
    decreases |words| - i
  {
    if i < |words| {
      if IsRedirection(words[i]) {
        if i + 1 < |words| {
          FailureCutsScan(words, i + 2, env);
        }
      } else {
        FailureCutsScan(words, i + 1, env);
      }
    }
  }

  /** The scan changes nothing exactly when no argument from `i` on is a redirection operator. */
  lemma NoRedirectionNoEffect(words: seq<string>, i: nat, env: Env)
    requires i <= |words|
    ensures (forall k :: i <= k < |words| ==> !IsRedirection(words[k])) <==> Resolve(words, i, env) == Clean
  {
    ScanSkipsWords(words, i, env);
  }

  // ---------------------------------------------------------------------
  // Examples

  /** `cmd > a.txt > b.txt`: both files are opened (so `a.txt` is truncated) and output goes to `b.txt`. */
  lemma EarlierTargetStillTruncated(s: Streams)
    ensures var r := Resolve(["cmd", ">", "a.txt", ">", "b.txt"], 0, Permissive);
      && r.error == None && r.nulled == {1, 3}
      && r.opens == [Directive(OutTrunc, "a.txt"), Directive(OutTrunc, "b.txt")]
      && BindAll(s, r.applied).stdout == File(Directive(OutTrunc, "b.txt"))
  {
    var w := ["cmd", ">", "a.txt", ">", "b.txt"];
    var a, b := Directive(OutTrunc, "a.txt"), Directive(OutTrunc, "b.txt");
    assert Resolve(w, 3, Permissive) == Scan({3}, [b], [b], None);
    assert Resolve(w, 1, Permissive) == Scan({1} + {3}, [a] + [b], [a] + [b], None);
    assert OperatorMode(w[0]) == None;
    var r := Resolve(w, 0, Permissive);
    assert r.applied == [a, b];
    LastDirectiveWins(s, r.applied, false);
    assert LastOf(r.applied, false) == 1;
  }

  /** `cat < in -n`: the program runs as plain `cat`; `-n` is lost. */
  lemma ArgumentAfterRedirectionLost()
    ensures var args := [Some("cat"), Some("<"), Some("in"), Some("-n"), None];
      Argv(NullOut(args, Resolve(Argv(args), 0, Permissive).nulled)) == ["cat"]
  {
    var args := [Some("cat"), Some("<"), Some("in"), Some("-n"), None];
    ArgvStopsAt(args, 4);
    var w := Argv(args);
    assert w == ["cat", "<", "in", "-n"];
    assert OperatorMode(w[3]) == None;
    assert Resolve(w, 3, Permissive) == Clean;
    assert OperatorMode(w[0]) == None;
    assert Resolve(w, 0, Permissive).error == None;
    ExecArgvStopsAtFirstRedirection(args, Permissive);
    assert OperatorMode(w[1]) == Some(In);
    assert FirstRedirection(w, 0) == 1;
  }

  /**
   * `> > x`: the second `>` is taken as the file name and `x` is passed over
   * as an ordinary argument; slot 0 is nulled, so the vector left for
   * `execvp` is empty.
   */
  lemma OperatorTakenAsFileName()
    ensures var r := Resolve([">", ">", "x"], 0, Permissive);
      && r.error == None && r.nulled == {0} && r.opens == [Directive(OutTrunc, ">")]
      && Argv(NullOut([Some(">"), Some(">"), Some("x"), None], r.nulled)) == []
  {
    var a := [Some(">"), Some(">"), Some("x"), None];
    assert NullOut(a, {0})[0] == None;
  }

  /** `sort <` with nothing after the operator: -1 and nothing opened. */
  lemma MissingFileName()
    ensures Resolve(["sort", "<"], 0, Permissive) == Scan({}, [], [], Some(MissingFile(In)))
  {
  }
}
