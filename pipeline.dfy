/**
 * `find_pipe`, `execute_pipeline` and `lsh_launch`: how the shell starts
 * programs.
 *
 * What the shell does is recorded as a trace of process-level events in the
 * order the shell performs them. Every call of `pipe` or `fork` is an
 * attempt with a number, taken in order from `n` on; the attempts in
 * `fails` fail, and a successful attempt's number names the pipe or the
 * child it made. A `Spawn` child is a program child: what it does once
 * started is `Child`, which applies its own redirections over the streams
 * it was given and runs `execvp`. A `SpawnBuiltin` child runs a built-in
 * instead of `execvp` and then exits.
 *
 * `ExecutePipeline` is the procedure as written; `Chain` is a pipeline
 * that runs each segment once, wires neighbours together and releases
 * everything it acquires, on every failure path too.
 */
module Pipeline {
  import opened Common
  import opened Redirect

  datatype Event =
    | OpenPipe(pipe: nat)
    | Spawn(pid: nat, argv: seq<string>, wiring: Streams)
    | SpawnBuiltin(pid: nat, builtin: nat, argv: seq<string>)
    | ClosePipe(pipe: nat)
    | Wait(pid: nat)

  /** The value returned to the shell loop, the events, and the next attempt number. */
  datatype Outcome = Outcome(status: int, trace: seq<Event>, next: nat)

  /** The shell's own standard streams, which a child inherits unless rewired. */
  const Inherited := Streams(Terminal, Terminal)

  /** `find_pipe`: the index of the first `|` argument, or -1. */
  function FindPipe(words: seq<string>): (r: int)
    ensures r == -1 <==> "|" !in words
    ensures r != -1 ==> 0 <= r < |words| && words[r] == "|" && "|" !in words[..r]
  {
    if words == [] then -1
    else if words[0] == "|" then 0
    else
      var r := FindPipe(words[1..]);
      if r == -1 then -1
      else
        assert words[..r + 1] == [words[0]] + words[1..][..r];
        r + 1
  }

  /** `lsh_launch`: fork attempt `n`; the child runs `words`, the shell waits for it. */
  function Launch(words: seq<string>, n: nat, fails: set<nat>): (r: Outcome)
    ensures r.status == 1 && r.next == n + 1
  {
    if n in fails then Outcome(1, [], n + 1)
    else Outcome(1, [Spawn(n, words, Inherited), Wait(n)], n + 1)
  }

  /**
   * `execute_pipeline` as written. The first `|` is overwritten with NULL;
   * child 1 runs the words in front of it with standard output on the
   * pipe, child 2 runs all the words after it, later `|` included, with
   * standard input on the pipe. The shell closes the pipe, waits for both,
   * and when the words after the `|` hold another `|`, runs them again as a
   * pipeline. A failed `pipe` or `fork` returns 1 at once.
   */
  function ExecutePipeline(words: seq<string>, n: nat, fails: set<nat>): (r: Outcome)
    ensures r.status == 1 && n < r.next
    decreases |words|
  {
    var p := FindPipe(words);
    if p == -1 then Launch(words, n, fails)
    else
      var left, right := words[..p], words[p + 1..];
      if n in fails then Outcome(1, [], n + 1)
      else if n + 1 in fails then Outcome(1, [OpenPipe(n)], n + 2)
      else
        if n + 2 in fails then Outcome(1, [OpenPipe(n), Spawn(n + 1, left, Streams(Terminal, PipeWrite(n)))], n + 3)
        else
          var stage := Stage(n, left, right);
          if FindPipe(right) != -1 then
            var rest := ExecutePipeline(right, n + 3, fails);
            Outcome(rest.status, stage + rest.trace, rest.next)
          else Outcome(1, stage, n + 3)
  }

  /**
   * One completed round of `execute_pipeline`: pipe `n`, child `n + 1`
   * writing it, child `n + 2` reading it, then the parent closes it and
   * waits for both children.
   */
  function Stage(n: nat, left: seq<string>, right: seq<string>): seq<Event> {
    [OpenPipe(n), Spawn(n + 1, left, Streams(Terminal, PipeWrite(n))),
     Spawn(n + 2, right, Streams(PipeRead(n), Terminal)), ClosePipe(n), Wait(n + 1), Wait(n + 2)]
  }

  // ---------------------------------------------------------------------
  // Resources

  function Spawned(t: seq<Event>): set<nat> {
    set e | e in t && (e.Spawn? || e.SpawnBuiltin?) :: e.pid
  }

  function Waited(t: seq<Event>): set<nat> {
    set e | e in t && e.Wait? :: e.pid
  }

  function Opened(t: seq<Event>): set<nat> {
    set e | e in t && e.OpenPipe? :: e.pipe
  }

  function Closed(t: seq<Event>): set<nat> {
    set e | e in t && e.ClosePipe? :: e.pipe
  }

  /** Every child started is waited for and every pipe opened is closed. */
  predicate Reaped(t: seq<Event>) {
    Spawned(t) == Waited(t) && Opened(t) == Closed(t)
  }

  /** The pids of the `Wait` events of a trace, in order. */
  function WaitPids(t: seq<Event>): (r: seq<nat>)
    ensures forall k :: 0 <= k < |r| ==> Wait(r[k]) in t
  {
    if t == [] then []
    else (if t[0].Wait? then [t[0].pid] else []) + WaitPids(t[1..])
  }

  lemma WaitPidsAppend(a: seq<Event>, b: seq<Event>)
    ensures WaitPids(a + b) == WaitPids(a) + WaitPids(b)
  {
    if a == [] {
      assert a + b == b;
    } else {
      assert (a + b)[0] == a[0] && (a + b)[1..] == a[1..] + b;
      WaitPidsAppend(a[1..], b);
    }
  }

  predicate Rising(xs: seq<nat>) {
    forall i, j :: 0 <= i < j < |xs| ==> xs[i] < xs[j]
  }

  predicate Distinct(xs: seq<nat>) {
    forall i, j :: 0 <= i < j < |xs| ==> xs[i] != xs[j]
  }

  /**
   * Every child started is waited for exactly once, and only after it was
   * started: the waits name distinct children, as many as were started, and
   * each names a child an earlier event started.
   */
  predicate WaitedOnce(t: seq<Event>) {
    && Distinct(WaitPids(t)) && |WaitPids(t)| == |Spawned(t)|
    && forall i :: 0 <= i < |t| && t[i].Wait? ==> t[i].pid in Spawned(t[..i])
  }

  lemma ResourcesAppend(a: seq<Event>, b: seq<Event>)
    ensures Spawned(a + b) == Spawned(a) + Spawned(b)
    ensures Waited(a + b) == Waited(a) + Waited(b)
    ensures Opened(a + b) == Opened(a) + Opened(b)
    ensures Closed(a + b) == Closed(a) + Closed(b)
  {
    assert forall e :: e in a + b <==> e in a || e in b;
  }

  /** The `Spawn` events of a trace, in order. */
  function Spawns(t: seq<Event>): (r: seq<Event>)
    ensures forall k :: 0 <= k < |r| ==> r[k].Spawn? && r[k] in t
  {
    if t == [] then []
    else (if t[0].Spawn? then [t[0]] else []) + Spawns(t[1..])
  }

  lemma SpawnsAppend(a: seq<Event>, b: seq<Event>)
    ensures Spawns(a + b) == Spawns(a) + Spawns(b)
  {
    if a == [] {
      assert a + b == b;
    } else {
      assert (a + b)[0] == a[0] && (a + b)[1..] == a[1..] + b;
      SpawnsAppend(a[1..], b);
    }
  }

  function Programs(sp: seq<Event>): seq<seq<string>>
    requires forall k :: 0 <= k < |sp| ==> sp[k].Spawn?
  {
    seq(|sp|, k requires 0 <= k < |sp| => sp[k].argv)
  }

  /** The number of `|` arguments. */
  function Pipes(words: seq<string>): nat {
    if words == [] then 0 else (if words[0] == "|" then 1 else 0) + Pipes(words[1..])
  }

  lemma PipesAppend(a: seq<string>, b: seq<string>)
    ensures Pipes(a + b) == Pipes(a) + Pipes(b)
  {
    if a == [] {
      assert a + b == b;
    } else {
      assert (a + b)[0] == a[0] && (a + b)[1..] == a[1..] + b;
      PipesAppend(a[1..], b);
    }
  }

  lemma NoPipes(words: seq<string>)
    requires "|" !in words
    ensures Pipes(words) == 0
  {
    if words != [] {
      assert words[0] != "|";
      NoPipes(words[1..]);
    }
  }

  lemma {:induction false} SomePipes(words: seq<string>)
    requires "|" in words
    ensures Pipes(words) >= 1
  {
    if words[0] != "|" {
      assert "|" in words[1..] by {
        assert words == [words[0]] + words[1..];
      }
      SomePipes(words[1..]);
    }
  }

  /** Splitting at the first `|` removes exactly one `|`. */
  lemma PipesAtFirst(words: seq<string>)
    requires FindPipe(words) != -1
    ensures Pipes(words) == 1 + Pipes(words[FindPipe(words) + 1..])
  {
    var p := FindPipe(words);
    assert words == words[..p] + [words[p]] + words[p + 1..];
    PipesAppend(words[..p] + [words[p]], words[p + 1..]);
    PipesAppend(words[..p], [words[p]]);
    NoPipes(words[..p]);
    assert Pipes([words[p]]) == 1 by {
      assert [words[p]][1..] == [];
    }
  }

  // ---------------------------------------------------------------------
  // The procedure as written

  lemma StageResources(n: nat, left: seq<string>, right: seq<string>)
    ensures var st := Stage(n, left, right);
      && Spawned(st) == {n + 1, n + 2} == Waited(st) && Opened(st) == {n} == Closed(st)
  {
    var st := Stage(n, left, right);
    assert st[1] in st && st[2] in st && st[0] in st && st[3] in st && st[4] in st && st[5] in st;
  }

  lemma StageSpawns(n: nat, left: seq<string>, right: seq<string>)
    ensures Spawns(Stage(n, left, right))
         == [Spawn(n + 1, left, Streams(Terminal, PipeWrite(n))), Spawn(n + 2, right, Streams(PipeRead(n), Terminal))]
  {
    var st := Stage(n, left, right);
    var t1 := st[1..];
    var t2 := t1[1..];
    var t3 := t2[1..];
    var t4 := t3[1..];
    var t5 := t4[1..];
    assert t5[1..] == [];
    assert Spawns(t5) == [];
    assert Spawns(t4) == [];
    assert Spawns(t3) == [];
    assert Spawns(t2) == [st[2]];
    assert Spawns(t1) == [st[1]] + [st[2]];
  }

  /** A line without a pipe is one child, which is waited for. */
  lemma LoneCommandReaped(words: seq<string>, n: nat)
    requires FindPipe(words) == -1
    ensures Reaped(ExecutePipeline(words, n, {}).trace)
  {
    var t := ExecutePipeline(words, n, {}).trace;
    assert t == [Spawn(n, words, Inherited), Wait(n)];
    assert t[0] in t && t[1] in t;
  }

  /** When every `pipe` and `fork` succeeds, every child is waited for and every pipe closed. */
  lemma {:induction false} PipelineReapsWithoutFailures(words: seq<string>, n: nat)
    ensures Reaped(ExecutePipeline(words, n, {}).trace)
    decreases |words|
  {
    var p := FindPipe(words);
    if p == -1 {
      LoneCommandReaped(words, n);
    } else {
      var right := words[p + 1..];
      var stage := Stage(n, words[..p], right);
      assert Reaped(stage) by {
        StageResources(n, words[..p], right);
      }
      if FindPipe(right) == -1 {
        assert ExecutePipeline(words, n, {}).trace == stage by {
          PipelineRound(words, n);
        }
      } else {
        var rest := ExecutePipeline(right, n + 3, {}).trace;
        assert ExecutePipeline(words, n, {}).trace == stage + rest by {
          PipelineRound(words, n);
        }
        assert Reaped(rest) by {
          PipelineReapsWithoutFailures(right, n + 3);
        }
        ResourcesAppend(stage, rest);
      }
    }
  }

  /**
   * When the first `fork` fails, the shell returns without closing the pipe
   * it has just opened.
   */
  lemma FirstForkFailureLeaksPipe(words: seq<string>, n: nat, fails: set<nat>)
    requires FindPipe(words) != -1 && n !in fails && n + 1 in fails
    ensures var t := ExecutePipeline(words, n, fails).trace;
      n in Opened(t) && n !in Closed(t) && !Reaped(t)
  {
    var t := ExecutePipeline(words, n, fails).trace;
    assert t == [OpenPipe(n)];
    assert OpenPipe(n) in t;
  }

  /**
   * When the second `fork` fails, the shell returns without closing the
   * pipe and without waiting for the first child, which keeps running.
   */
  lemma SecondForkFailureLeaksChild(words: seq<string>, n: nat, fails: set<nat>)
    requires FindPipe(words) != -1 && n !in fails && n + 1 !in fails && n + 2 in fails
    ensures var t := ExecutePipeline(words, n, fails).trace;
      n + 1 in Spawned(t) && n + 1 !in Waited(t) && n in Opened(t) && n !in Closed(t)
  {
    var t := ExecutePipeline(words, n, fails).trace;
    assert t[0] == OpenPipe(n) && t[1].Spawn? && t[1].pid == n + 1;
    assert forall e :: e in t ==> !e.Wait? && !e.ClosePipe?;
  }

  /** One round of `execute_pipeline` when nothing fails: a stage, then the rest of the line if it has a `|`. */
  lemma PipelineRound(words: seq<string>, n: nat)
    requires FindPipe(words) != -1
    ensures var p := FindPipe(words);
      var stage := Stage(n, words[..p], words[p + 1..]);
      ExecutePipeline(words, n, {}).trace
        == if FindPipe(words[p + 1..]) != -1 then stage + ExecutePipeline(words[p + 1..], n + 3, {}).trace else stage
  {
  }

  /**
   * With k >= 1 `|` arguments and no failure, the shell starts 2k children,
   * not k + 1: every command between the first and the last `|` is started
   * twice.
   */
  lemma {:induction false} TwoChildrenPerPipe(words: seq<string>, n: nat)
    requires Pipes(words) >= 1
    ensures |Spawns(ExecutePipeline(words, n, {}).trace)| == 2 * Pipes(words)
    decreases |words|
  {
    var p := FindPipe(words);
    assert p != -1 by {
      if p == -1 {
        NoPipes(words);
      }
    }
    var right := words[p + 1..];
    var stage := Stage(n, words[..p], right);
    var t := ExecutePipeline(words, n, {}).trace;
    assert |Spawns(stage)| == 2 by {
      StageSpawns(n, words[..p], right);
    }
    assert Pipes(words) == 1 + Pipes(right) by {
      PipesAtFirst(words);
    }
    if FindPipe(right) != -1 {
      var rest := ExecutePipeline(right, n + 3, {});
      assert t == stage + rest.trace by {
        PipelineRound(words, n);
      }
      SomePipes(right);
      TwoChildrenPerPipe(right, n + 3);
      SpawnsAppend(stage, rest.trace);
    } else {
      assert t == stage by {
        PipelineRound(words, n);
      }
      assert Pipes(right) == 0 by {
        NoPipes(right);
      }
    }
  }

  /** The trace of `a | b | c` when nothing fails: two full rounds. */
  lemma MiddleTrace(a: string, b: string, c: string, n: nat)
    requires a != "|" && b != "|" && c != "|"
    ensures ExecutePipeline([a, "|", b, "|", c], n, {}).trace
         == Stage(n, [a], [b, "|", c]) + Stage(n + 3, [b], [c])
  {
    var w := [a, "|", b, "|", c];
    var right := [b, "|", c];
    assert FindPipe([c]) == -1;
    assert FindPipe(right) == 1 && right[..1] == [b] && right[2..] == [c];
    assert FindPipe(w) == 1 && w[..1] == [a] && w[2..] == right;
    PipelineRound(right, n + 3);
    PipelineRound(w, n);
  }

  /**
   * `a | b | c`: `b` is started twice, first as `b | c` reading the output
   * of `a`, then as `b` reading the shell's own standard input, its output
   * going to `c`.
   */
  lemma MiddleCommandRunsTwice(a: string, b: string, c: string, n: nat)
    requires a != "|" && b != "|" && c != "|"
    ensures Spawns(ExecutePipeline([a, "|", b, "|", c], n, {}).trace) == [
      Spawn(n + 1, [a], Streams(Terminal, PipeWrite(n))),
      Spawn(n + 2, [b, "|", c], Streams(PipeRead(n), Terminal)),
      Spawn(n + 4, [b], Streams(Terminal, PipeWrite(n + 3))),
      Spawn(n + 5, [c], Streams(PipeRead(n + 3), Terminal))]
  {
    var stage1, stage2 := Stage(n, [a], [b, "|", c]), Stage(n + 3, [b], [c]);
    MiddleTrace(a, b, c, n);
    StageSpawns(n, [a], [b, "|", c]);
    StageSpawns(n + 3, [b], [c]);
    SpawnsAppend(stage1, stage2);
  }

  /** In `a | b | c` some pair of neighbouring children is not connected by a pipe. */
  lemma AsWrittenNotWired(a: string, b: string, c: string, n: nat)
    requires a != "|" && b != "|" && c != "|"
    ensures !Wired(Spawns(ExecutePipeline([a, "|", b, "|", c], n, {}).trace))
  {
    MiddleCommandRunsTwice(a, b, c, n);
    var sp := Spawns(ExecutePipeline([a, "|", b, "|", c], n, {}).trace);
    assert sp[1].wiring.stdout == Terminal;
    assert !Connected(sp[1], sp[2]);
  }

  // ---------------------------------------------------------------------
  // What a child does

  datatype ChildEnd = Exec(argv: seq<string>, streams: Streams) | ExitFailure

  /**
   * A child started with arguments `argv` and streams `wiring`: it runs
   * `handle_redirection` on its vector, exits on -1, and otherwise calls
   * `execvp` on what is left of the vector, with the streams as rebound.
   * Its own redirections come after the pipe wiring and so override it.
   */
  function Child(argv: seq<string>, wiring: Streams, env: Env): (r: ChildEnd)
    ensures r.Exec? <==> Resolve(argv, 0, env).error == None
    ensures r.Exec? ==> r.argv == argv[..FirstRedirection(argv, 0)]
    ensures r.Exec? ==> r.streams == BindAll(wiring, Resolve(argv, 0, env).applied)
  {
    var args := Vector(argv);
    var scan := Resolve(argv, 0, env);
    if scan.error.Some? then ExitFailure
    else
      ExecArgvStopsAtFirstRedirection(args, env);
      Exec(Argv(NullOut(args, scan.nulled)), BindAll(wiring, scan.applied))
  }

  /** `ls > f | wc`: the first child is `ls > f`, started writing the pipe. */
  lemma RedirectionInsidePipe(n: nat)
    ensures var sp := Spawns(ExecutePipeline(["ls", ">", "f", "|", "wc"], n, {}).trace);
      |sp| == 2 && sp[0] == Spawn(n + 1, ["ls", ">", "f"], Streams(Terminal, PipeWrite(n)))
  {
    var w := ["ls", ">", "f", "|", "wc"];
    var left := ["ls", ">", "f"];
    assert FindPipe(w) == 3 && w[..3] == left && w[4..] == ["wc"];
    assert FindPipe(["wc"]) == -1;
    assert ExecutePipeline(w, n, {}).trace == Stage(n, left, ["wc"]);
    StageSpawns(n, left, ["wc"]);
  }

  /** That child writes to `f`, not to the pipe, so `wc` reads nothing. */
  lemma RedirectionOverridesPipe(n: nat)
    ensures Child(["ls", ">", "f"], Streams(Terminal, PipeWrite(n)), Permissive)
         == Exec(["ls"], Streams(Terminal, File(Directive(OutTrunc, "f"))))
  {
    var left := ["ls", ">", "f"];
    var d := Directive(OutTrunc, "f");
    assert OperatorMode(left[2]) == None;
    assert Resolve(left, 3, Permissive) == Scan({}, [], [], None);
    assert Resolve(left, 1, Permissive) == Scan({1}, [d], [d], None);
    assert OperatorMode(left[0]) == None;
    assert Resolve(left, 0, Permissive) == Scan({1}, [d], [d], None);
    assert [d][..0] == [];
    assert BindAll(Streams(Terminal, PipeWrite(n)), [d]) == Streams(Terminal, File(d));
    assert IsRedirection(left[1]) && !IsRedirection(left[0]);
    assert FirstRedirection(left, 0) == 1;
    assert left[..1] == ["ls"];
  }

  // ---------------------------------------------------------------------
  // A pipeline that runs each segment once

  /** The commands of a line: the words between `|` arguments. */
  function Segments(words: seq<string>): (r: seq<seq<string>>)
    ensures |r| >= 1
    decreases |words|
  {
    var p := FindPipe(words);
    if p == -1 then [words] else [words[..p]] + Segments(words[p + 1..])
  }

  /** The segments put back together with `|` between them. */
  function Join(segs: seq<seq<string>>): seq<string>
    requires |segs| >= 1
  {
    if |segs| == 1 then segs[0] else segs[0] + ["|"] + Join(segs[1..])
  }

  /** Joining a first segment to at least one more puts a `|` between them. */
  lemma JoinCons(head: seq<string>, tail: seq<seq<string>>)
    requires |tail| >= 1
    ensures Join([head] + tail) == head + ["|"] + Join(tail)
  {
    assert ([head] + tail)[1..] == tail;
  }

  /** Segments of a line with a `|`: the words in front of the first one, then the segments of the rest. */
  lemma SegmentsAtFirst(words: seq<string>)
    requires FindPipe(words) != -1
    ensures var p := FindPipe(words);
      Segments(words) == [words[..p]] + Segments(words[p + 1..])
  {
  }

  /** Splitting at every `|` and joining again gives back the line. */
  lemma {:induction false} SegmentsJoin(words: seq<string>)
    ensures Join(Segments(words)) == words
    decreases |words|
  {
    var p := FindPipe(words);
    if p == -1 {
      assert Segments(words) == [words];
    } else {
      var left, right := words[..p], words[p + 1..];
      var rs := Segments(right);
      assert Join(rs) == right by {
        SegmentsJoin(right);
      }
      assert Segments(words) == [left] + rs by {
        SegmentsAtFirst(words);
      }
      JoinCons(left, rs);
      assert words == left + ["|"] + right;
    }
  }

  /** No segment holds a `|`. */
  predicate PipeFree(segs: seq<seq<string>>) {
    forall k :: 0 <= k < |segs| ==> "|" !in segs[k]
  }

  lemma PipeFreeCons(head: seq<string>, tail: seq<seq<string>>)
    ensures PipeFree([head] + tail) <==> "|" !in head && PipeFree(tail)
  {
    var segs := [head] + tail;
    if "|" !in head && PipeFree(tail) {
      forall k | 0 <= k < |segs|
        ensures "|" !in segs[k]
      {
        if k > 0 {
          assert segs[k] == tail[k - 1];
        }
      }
    }
    if PipeFree(segs) {
      assert segs[0] == head;
      forall k | 0 <= k < |tail|
        ensures "|" !in tail[k]
      {
        assert segs[k + 1] == tail[k];
      }
    }
  }

  /** There is one segment more than there are `|` arguments. */
  lemma {:induction false} SegmentsCount(words: seq<string>)
    ensures |Segments(words)| == Pipes(words) + 1
    decreases |words|
  {
    var p := FindPipe(words);
    if p == -1 {
      NoPipes(words);
    } else {
      SegmentsCount(words[p + 1..]);
      PipesAtFirst(words);
      SegmentsAtFirst(words);
    }
  }

  /** No segment holds a `|`. */
  lemma {:induction false} SegmentsPipeFree(words: seq<string>)
    ensures PipeFree(Segments(words))
    decreases |words|
  {
    var p := FindPipe(words);
    if p == -1 {
      assert "|" !in words;
      assert Segments(words) == [words] + [];
      PipeFreeCons(words, []);
    } else {
      assert "|" !in words[..p];
      var rest := Segments(words[p + 1..]);
      SegmentsPipeFree(words[p + 1..]);
      SegmentsAtFirst(words);
      assert Segments(words) == [words[..p]] + rest;
      PipeFreeCons(words[..p], rest);
    }
  }

  /** Joining segments free of `|` and splitting again gives back the segments. */
  lemma {:induction false} JoinSegments(segs: seq<seq<string>>)
    requires |segs| >= 1 && PipeFree(segs)
    ensures Segments(Join(segs)) == segs
    decreases |segs|
  {
    if |segs| > 1 {
      var words := Join(segs);
      var head := segs[0];
      assert segs == [head] + segs[1..];
      PipeFreeCons(head, segs[1..]);
      JoinSegments(segs[1..]);
      assert words == head + ["|"] + Join(segs[1..]);
      assert words[|head|] == "|" && words[..|head|] == head;
      assert FindPipe(words) == |head|;
      assert words[|head| + 1..] == Join(segs[1..]);
      SegmentsAtFirst(words);
      assert segs == [head] + segs[1..];
    }
  }

  /** The children started so far, the events so far, and the next attempt number. */
  datatype Started = Started(events: seq<Event>, children: seq<nat>, next: nat)

  /** The pipe whose read end `b` is, as a set. */
  function ReadEnd(b: Binding): set<nat> {
    if b.PipeRead? then {b.pipe} else {}
  }

  function Elems(cs: seq<nat>): set<nat> {
    set c | c in cs
  }

  lemma ElemsCons(c: nat, cs: seq<nat>)
    ensures Elems([c] + cs) == {c} + Elems(cs)
  {
    assert forall x :: x in [c] + cs <==> x == c || x in cs;
  }

  /** What a one-event trace starts, waits for, opens and closes. */
  lemma Single(e: Event)
    ensures Spawned([e]) == (if e.Spawn? || e.SpawnBuiltin? then {e.pid} else {})
    ensures Waited([e]) == (if e.Wait? then {e.pid} else {})
    ensures Opened([e]) == (if e.OpenPipe? then {e.pipe} else {})
    ensures Closed([e]) == (if e.ClosePipe? then {e.pipe} else {})
    ensures Spawns([e]) == (if e.Spawn? then [e] else [])
  {
    assert e in [e];
    assert [e][1..] == [];
  }

  /** The parent closes the read end it handed to the child just started. */
  function Release(prev: Binding): (t: seq<Event>)
    ensures Spawned(t) == {} && Waited(t) == {} && Opened(t) == {} && Closed(t) == ReadEnd(prev)
    ensures Spawns(t) == []
  {
    if prev.PipeRead? then
      Single(ClosePipe(prev.pipe));
      [ClosePipe(prev.pipe)]
    else []
  }

  /**
   * Starts the segments `segs`, the first reading `prev`. Every segment but
   * the last gets a fresh pipe for its output; the shell closes each pipe
   * once the child reading it has been started, or at once when a `pipe` or
   * `fork` fails, and then starts nothing more.
   */
  function StartChain(segs: seq<seq<string>>, prev: Binding, n: nat, fails: set<nat>): (r: Started)
    requires |segs| >= 1
    ensures n < r.next
    decreases |segs|
  {
    if |segs| == 1 then
      if n in fails then Started(Release(prev), [], n + 1)
      else Started([Spawn(n, segs[0], Streams(prev, Terminal))] + Release(prev), [n], n + 1)
    else if n in fails then Started(Release(prev), [], n + 1)
    else if n + 1 in fails then Started([OpenPipe(n)] + Release(prev) + [ClosePipe(n)], [], n + 2)
    else
      var rest := StartChain(segs[1..], PipeRead(n), n + 2, fails);
      Started([OpenPipe(n)] + [Spawn(n + 1, segs[0], Streams(prev, PipeWrite(n)))] + Release(prev) + rest.events,
              [n + 1] + rest.children, rest.next)
  }

  function Waits(children: seq<nat>): (t: seq<Event>)
    ensures Spawned(t) == {} && Opened(t) == {} && Closed(t) == {}
    ensures Waited(t) == Elems(children)
    ensures Spawns(t) == []
  {
    if children == [] then []
    else
      var t := [Wait(children[0])] + Waits(children[1..]);
      ResourcesAppend([Wait(children[0])], Waits(children[1..]));
      SpawnsAppend([Wait(children[0])], Waits(children[1..]));
      Single(Wait(children[0]));
      ElemsCons(children[0], children[1..]);
      assert children == [children[0]] + children[1..];
      t
  }

  /** `Waits(cs)` waits for the children `cs`, one after another, in order. */
  lemma {:induction false} WaitsInOrder(cs: seq<nat>)
    ensures |Waits(cs)| == |cs| && WaitPids(Waits(cs)) == cs
    ensures forall k :: 0 <= k < |cs| ==> Waits(cs)[k] == Wait(cs[k])
  {
    if cs != [] {
      WaitsInOrder(cs[1..]);
      WaitPidsAppend([Wait(cs[0])], Waits(cs[1..]));
      assert [Wait(cs[0])][1..] == [];
      assert cs == [cs[0]] + cs[1..];
    }
  }

  /** A sequence without repetitions has as many elements as its set. */
  lemma {:induction false} DistinctElems(cs: seq<nat>)
    requires Distinct(cs)
    ensures |Elems(cs)| == |cs|
  {
    if cs != [] {
      assert Distinct(cs[1..]) by {
        forall i, j | 0 <= i < j < |cs| - 1
          ensures cs[1..][i] != cs[1..][j]
        {
          assert cs[i + 1] != cs[j + 1];
        }
      }
      DistinctElems(cs[1..]);
      assert cs == [cs[0]] + cs[1..];
      ElemsCons(cs[0], cs[1..]);
      assert cs[0] !in Elems(cs[1..]) by {
        forall k | 0 <= k < |cs| - 1
          ensures cs[1..][k] != cs[0]
        {
          assert cs[k + 1] != cs[0];
        }
      }
    }
  }

  /** A trace without waits that started the distinct children `cs`, followed by waits for them. */
  lemma WaitsAfterStarts(e: seq<Event>, cs: seq<nat>)
    requires Waited(e) == {} && Spawned(e) == Elems(cs) && Rising(cs)
    ensures WaitedOnce(e + Waits(cs))
  {
    WaitsInOrder(cs);
    WaitPidsAppend(e, Waits(cs));
    NoWaitPids(e);
    ResourcesAppend(e, Waits(cs));
    DistinctElems(cs);
    WaitsFollowStarts(e, cs);
  }

  lemma {:induction false} NoWaitPids(e: seq<Event>)
    requires Waited(e) == {}
    ensures WaitPids(e) == []
  {
    if e != [] {
      assert e == [e[0]] + e[1..];
      ResourcesAppend([e[0]], e[1..]);
      Single(e[0]);
      NoWaitPids(e[1..]);
    }
  }

  /** Each wait of `e + Waits(cs)` names a child started before it. */
  lemma WaitsFollowStarts(e: seq<Event>, cs: seq<nat>)
    requires Waited(e) == {} && Spawned(e) == Elems(cs)
    ensures var t := e + Waits(cs);
      forall i :: 0 <= i < |t| && t[i].Wait? ==> t[i].pid in Spawned(t[..i])
  {
    var t := e + Waits(cs);
    WaitsInOrder(cs);
    forall i | 0 <= i < |e|
      ensures !e[i].Wait?
    {
      assert e == e[..i] + [e[i]] + e[i + 1..];
      ResourcesAppend(e[..i] + [e[i]], e[i + 1..]);
      ResourcesAppend(e[..i], [e[i]]);
      Single(e[i]);
    }
    forall i | |e| <= i < |t|
      ensures t[i].Wait? && t[i].pid in Spawned(t[..i])
    {
      WaitFollowsStart(e, cs, i - |e|);
    }
  }

  /** The `k`-th wait after `e` names a child `e` started. */
  lemma WaitFollowsStart(e: seq<Event>, cs: seq<nat>, k: nat)
    requires Spawned(e) == Elems(cs) && k < |cs|
    ensures var t := e + Waits(cs);
      |e| + k < |t| && t[|e| + k] == Wait(cs[k]) && cs[k] in Spawned(t[..|e| + k])
  {
    var t := e + Waits(cs);
    WaitsInOrder(cs);
    assert t[|e| + k] == Waits(cs)[k];
    assert t[..|e| + k] == e + Waits(cs)[..k];
    ResourcesAppend(e, Waits(cs)[..k]);
  }

  /** The line run as a pipeline of its segments; the shell waits for every child it started. */
  function Chain(words: seq<string>, n: nat, fails: set<nat>): (r: Outcome)
    ensures r.status == 1 && n < r.next
  {
    var s := StartChain(Segments(words), Terminal, n, fails);
    Outcome(1, s.events + Waits(s.children), s.next)
  }

  /** Bookkeeping of a chain: what it started, waited for, opened and closed. */
  predicate Balanced(s: Started, prev: Binding, n: nat) {
    && Spawned(s.events) == Elems(s.children)
    && Waited(s.events) == {}
    && Closed(s.events) == Opened(s.events) + ReadEnd(prev)
    && forall x :: x in Opened(s.events) ==> n <= x
  }

  lemma BalancedLast(seg: seq<string>, prev: Binding, n: nat, fails: set<nat>)
    ensures Balanced(StartChain([seg], prev, n, fails), prev, n)
  {
    if n !in fails {
      var sp := Spawn(n, seg, Streams(prev, Terminal));
      ResourcesAppend([sp], Release(prev));
      Single(sp);
      ElemsCons(n, []);
    }
  }

  lemma BalancedPipeFails(segs: seq<seq<string>>, prev: Binding, n: nat, fails: set<nat>)
    requires |segs| >= 2 && n !in fails && n + 1 in fails
    ensures Balanced(StartChain(segs, prev, n, fails), prev, n)
  {
    ResourcesAppend([OpenPipe(n)] + Release(prev), [ClosePipe(n)]);
    ResourcesAppend([OpenPipe(n)], Release(prev));
    Single(OpenPipe(n));
    Single(ClosePipe(n));
  }

  /** The events of one step of a chain before the rest: pipe `n`, child `n + 1`, and the release of `prev`. */
  lemma StepHead(segs: seq<seq<string>>, prev: Binding, n: nat)
    requires |segs| >= 2
    ensures var head := [OpenPipe(n)] + [Spawn(n + 1, segs[0], Streams(prev, PipeWrite(n)))] + Release(prev);
      && Spawned(head) == {n + 1} && Waited(head) == {}
      && Opened(head) == {n} && Closed(head) == ReadEnd(prev)
  {
    var sp := Spawn(n + 1, segs[0], Streams(prev, PipeWrite(n)));
    OpenThenSpawn(n, sp);
    ResourcesAppend([OpenPipe(n)] + [sp], Release(prev));
  }

  /** Opening pipe `n` and then starting a program child. */
  lemma OpenThenSpawn(n: nat, sp: Event)
    requires sp.Spawn?
    ensures var t := [OpenPipe(n)] + [sp];
      && Spawned(t) == {sp.pid} && Waited(t) == {}
      && Opened(t) == {n} && Closed(t) == {}
  {
    ResourcesAppend([OpenPipe(n)], [sp]);
    Single(OpenPipe(n));
    Single(sp);
  }

  lemma BalancedStep(segs: seq<seq<string>>, prev: Binding, n: nat, fails: set<nat>)
    requires |segs| >= 2 && n !in fails && n + 1 !in fails
    requires Balanced(StartChain(segs[1..], PipeRead(n), n + 2, fails), PipeRead(n), n + 2)
    ensures Balanced(StartChain(segs, prev, n, fails), prev, n)
  {
    var rest := StartChain(segs[1..], PipeRead(n), n + 2, fails);
    var head := [OpenPipe(n)] + [Spawn(n + 1, segs[0], Streams(prev, PipeWrite(n)))] + Release(prev);
    var s := StartChain(segs, prev, n, fails);
    assert s.events == head + rest.events && s.children == [n + 1] + rest.children;
    StepHead(segs, prev, n);
    ResourcesAppend(head, rest.events);
    ElemsCons(n + 1, rest.children);
  }

  /** A chain closes every pipe it opens and also the read end `prev` handed to it; its children are the ones it records, and nothing is waited for yet. */
  lemma {:induction false} ChainResources(segs: seq<seq<string>>, prev: Binding, n: nat, fails: set<nat>)
    requires |segs| >= 1
    ensures Balanced(StartChain(segs, prev, n, fails), prev, n)
    decreases |segs|
  {
    if |segs| == 1 {
      assert segs == [segs[0]];
      BalancedLast(segs[0], prev, n, fails);
    } else if n in fails {
    } else if n + 1 in fails {
      BalancedPipeFails(segs, prev, n, fails);
    } else {
      ChainResources(segs[1..], PipeRead(n), n + 2, fails);
      BalancedStep(segs, prev, n, fails);
    }
  }

  /**
   * Whatever `pipe` or `fork` fails, the chain waits for every child it
   * started, exactly once and after starting it, and closes every pipe it
   * opened.
   */
  lemma ChainReaps(words: seq<string>, n: nat, fails: set<nat>)
    ensures Reaped(Chain(words, n, fails).trace)
    ensures WaitedOnce(Chain(words, n, fails).trace)
  {
    var s := StartChain(Segments(words), Terminal, n, fails);
    ChainResources(Segments(words), Terminal, n, fails);
    ResourcesAppend(s.events, Waits(s.children));
    ChainChildrenRise(Segments(words), Terminal, n, fails);
    WaitsAfterStarts(s.events, s.children);
  }

  /** The children a chain records are numbered upwards from `n`, so none is recorded twice. */
  lemma {:induction false} ChainChildrenRise(segs: seq<seq<string>>, prev: Binding, n: nat, fails: set<nat>)
    requires |segs| >= 1
    ensures forall k :: 0 <= k < |StartChain(segs, prev, n, fails).children| ==> n <= StartChain(segs, prev, n, fails).children[k]
    ensures Rising(StartChain(segs, prev, n, fails).children)
    decreases |segs|
  {
    if |segs| > 1 && n !in fails && n + 1 !in fails {
      var rest := StartChain(segs[1..], PipeRead(n), n + 2, fails);
      ChainChildrenRise(segs[1..], PipeRead(n), n + 2, fails);
      var cs := StartChain(segs, prev, n, fails).children;
      assert cs == [n + 1] + rest.children;
      forall k | 0 < k < |cs|
        ensures cs[k] == rest.children[k - 1] && n + 2 <= cs[k]
      {
      }
    }
  }

  /** Child `b` reads the pipe child `a` writes. */
  predicate Connected(a: Event, b: Event)
    requires a.Spawn? && b.Spawn?
  {
    a.wiring.stdout.PipeWrite? && b.wiring.stdin == PipeRead(a.wiring.stdout.pipe)
  }

  /** Children in a row, each connected to the next; the last writes the shell's output. */
  predicate Linked(sp: seq<Event>)
    requires forall k :: 0 <= k < |sp| ==> sp[k].Spawn?
  {
    && |sp| >= 1
    && sp[|sp| - 1].wiring.stdout == Terminal
    && forall k :: 0 <= k < |sp| - 1 ==> Connected(sp[k], sp[k + 1])
  }

  /**
   * Neighbouring children are connected: the first reads the shell's
   * input, each other one reads the pipe its predecessor writes, and the
   * last writes the shell's output.
   */
  predicate Wired(sp: seq<Event>)
    requires forall k :: 0 <= k < |sp| ==> sp[k].Spawn?
  {
    Linked(sp) && sp[0].wiring.stdin == Terminal
  }

  lemma LinkedCons(e: Event, sp: seq<Event>)
    requires e.Spawn? && forall k :: 0 <= k < |sp| ==> sp[k].Spawn?
    requires Linked(sp) && Connected(e, sp[0])
    ensures Linked([e] + sp)
  {
    var all := [e] + sp;
    forall k | 0 <= k < |all| - 1
      ensures Connected(all[k], all[k + 1])
    {
      if k > 0 {
        assert all[k] == sp[k - 1] && all[k + 1] == sp[k];
      }
    }
  }

  lemma ProgramsCons(e: Event, sp: seq<Event>)
    requires e.Spawn? && forall k :: 0 <= k < |sp| ==> sp[k].Spawn?
    ensures Programs([e] + sp) == [e.argv] + Programs(sp)
  {
  }

  /** What a chain started when nothing fails: each segment once, in order, linked. */
  predicate StartsEach(s: Started, segs: seq<seq<string>>, prev: Binding) {
    var sp := Spawns(s.events);
    |sp| >= 1 && Programs(sp) == segs && sp[0].wiring.stdin == prev && Linked(sp)
  }

  lemma StartsLast(seg: seq<string>, prev: Binding, n: nat)
    ensures StartsEach(StartChain([seg], prev, n, {}), [seg], prev)
  {
    var sp := Spawn(n, seg, Streams(prev, Terminal));
    SpawnsAppend([sp], Release(prev));
    Single(sp);
  }

  /** A step that starts segment `segs[0]` adds exactly that one child in front of the rest. */
  lemma StepSpawns(segs: seq<seq<string>>, prev: Binding, n: nat)
    requires |segs| >= 2
    ensures Spawns(StartChain(segs, prev, n, {}).events)
         == [Spawn(n + 1, segs[0], Streams(prev, PipeWrite(n)))] + Spawns(StartChain(segs[1..], PipeRead(n), n + 2, {}).events)
  {
    var rest := StartChain(segs[1..], PipeRead(n), n + 2, {});
    var sp := Spawn(n + 1, segs[0], Streams(prev, PipeWrite(n)));
    SpawnsAppend([OpenPipe(n)] + [sp] + Release(prev), rest.events);
    SpawnsAppend([OpenPipe(n)] + [sp], Release(prev));
    SpawnsAppend([OpenPipe(n)], [sp]);
    Single(OpenPipe(n));
    Single(sp);
  }

  lemma StartsStep(segs: seq<seq<string>>, prev: Binding, n: nat)
    requires |segs| >= 2
    requires StartsEach(StartChain(segs[1..], PipeRead(n), n + 2, {}), segs[1..], PipeRead(n))
    ensures StartsEach(StartChain(segs, prev, n, {}), segs, prev)
  {
    var tail := Spawns(StartChain(segs[1..], PipeRead(n), n + 2, {}).events);
    var sp := Spawn(n + 1, segs[0], Streams(prev, PipeWrite(n)));
    StepSpawns(segs, prev, n);
    assert Connected(sp, tail[0]);
    LinkedCons(sp, tail);
    ProgramsCons(sp, tail);
    assert segs == [segs[0]] + segs[1..];
  }

  lemma {:induction false} ChainStartsEachSegment(segs: seq<seq<string>>, prev: Binding, n: nat)
    requires |segs| >= 1
    ensures StartsEach(StartChain(segs, prev, n, {}), segs, prev)
    decreases |segs|
  {
    if |segs| == 1 {
      assert segs == [segs[0]];
      StartsLast(segs[0], prev, n);
    } else {
      ChainStartsEachSegment(segs[1..], PipeRead(n), n + 2);
      StartsStep(segs, prev, n);
    }
  }

  /**
   * When nothing fails, the chain starts each segment exactly once, in
   * order, with neighbours connected by pipes.
   */
  lemma ChainRunsEachSegmentOnce(words: seq<string>, n: nat)
    ensures var sp := Spawns(Chain(words, n, {}).trace);
      Programs(sp) == Segments(words) && Wired(sp)
  {
    var segs := Segments(words);
    var s := StartChain(segs, Terminal, n, {});
    assert Spawns(Chain(words, n, {}).trace) == Spawns(s.events) by {
      SpawnsAppend(s.events, Waits(s.children));
    }
    ChainStartsEachSegment(segs, Terminal, n);
  }

  /** `lsh_launch` waits once for the one child it starts, which runs the whole line on the shell's streams. */
  lemma LaunchReaps(words: seq<string>, n: nat, fails: set<nat>)
    ensures Reaped(Launch(words, n, fails).trace) && WaitedOnce(Launch(words, n, fails).trace)
    ensures Spawns(Launch(words, n, fails).trace) == (if n in fails then [] else [Spawn(n, words, Inherited)])
  {
    if n !in fails {
      var sp := Spawn(n, words, Inherited);
      ResourcesAppend([sp], [Wait(n)]);
      SpawnsAppend([sp], [Wait(n)]);
      Single(sp);
      Single(Wait(n));
      OneChildWaited(sp);
    } else {
      NothingStarted();
    }
  }

  /** A child started and then waited for once. */
  lemma OneChildWaited(sp: Event)
    requires sp.Spawn? || sp.SpawnBuiltin?
    ensures WaitedOnce([sp, Wait(sp.pid)])
  {
    Single(sp);
    ElemsCons(sp.pid, []);
    assert Elems([]) == {};
    assert Waits([sp.pid]) == [Wait(sp.pid)] + Waits([]);
    WaitsAfterStarts([sp], [sp.pid]);
    assert [sp] + Waits([sp.pid]) == [sp, Wait(sp.pid)];
  }

  /** The empty trace waits for nothing twice. */
  lemma NothingStarted()
    ensures WaitedOnce([])
  {
    assert Spawned([]) == {};
  }

  /** Without a `|`, the chain does exactly what `lsh_launch` does. */
  lemma ChainWithoutPipeIsLaunch(words: seq<string>, n: nat, fails: set<nat>)
    requires "|" !in words
    ensures Chain(words, n, fails) == Launch(words, n, fails)
  {
    assert Segments(words) == [words];
    var s := StartChain([words], Terminal, n, fails);
    if n !in fails {
      assert s.events == [Spawn(n, words, Inherited)] + [];
      assert Waits([n]) == [Wait(n)] + Waits([]);
    } else {
      assert s.events == [] && s.children == [];
    }
  }
}
