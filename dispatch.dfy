/**
 * `lsh_execute`: what the shell does with one tokenized line. An empty
 * line does nothing; a built-in runs inside the shell unless the line has a
 * redirection, in which case it runs in a child that applies the
 * redirections first; any other line with a `|` goes to
 * `execute_pipeline`, and the rest to `lsh_launch`. The value returned is
 * the shell loop's continuation flag: 0 ends the shell.
 */
module Dispatch {
  import opened Common
  import opened Redirect
  import opened Pipeline
  import Lexer

  /** `builtin_str`, in table order. */
  const Builtins: seq<string> := ["cd", "help", "exit", "pwd", "echo"]

  /** What each built-in returns, in table order: only `exit` returns 0. */
  const BuiltinResults: seq<int> := [1, 1, 0, 1, 1]

  /** The table index of the built-in called `name`, the first match in table order. */
  function FindBuiltin(name: string): (r: Option<nat>)
    ensures r.Some? <==> name in Builtins
    ensures r.Some? ==> r.value < |Builtins| && Builtins[r.value] == name && name !in Builtins[..r.value]
  {
    if name == "cd" then Some(0)
    else if name == "help" then Some(1)
    else if name == "exit" then Some(2)
    else if name == "pwd" then Some(3)
    else if name == "echo" then Some(4)
    else None
  }

  /** The `has_redirection` scan: some argument is `<`, `>` or `>>`. */
  function HasRedirection(words: seq<string>): (r: bool)
    ensures r <==> exists k :: 0 <= k < |words| && IsRedirection(words[k])
  {
    if words == [] then false
    else IsRedirection(words[0]) || HasRedirection(words[1..])
  }

  /** The scan agrees with `handle_redirection`: a line has a redirection exactly when the scan there finds an operator. */
  lemma HasRedirectionIsFirstRedirection(words: seq<string>)
    ensures HasRedirection(words) <==> FirstRedirection(words, 0) < |words|
  {
  }

  datatype Action =
    | Nothing
    | BuiltinInShell(index: nat)
    | BuiltinInChild(index: nat)
    | RunPipeline
    | RunProgram

  /** The branch `lsh_execute` takes; built-ins are recognised before pipes. */
  function Decide(words: seq<string>): (a: Action)
    ensures a == Nothing <==> words == []
    ensures a.BuiltinInShell? <==> words != [] && words[0] in Builtins && !HasRedirection(words)
    ensures a.BuiltinInChild? <==> words != [] && words[0] in Builtins && HasRedirection(words)
    ensures (a.BuiltinInShell? || a.BuiltinInChild?) ==> a.index < |Builtins| && Builtins[a.index] == words[0]
    ensures a == RunPipeline <==> words != [] && words[0] !in Builtins && "|" in words
    ensures a == RunProgram <==> words != [] && words[0] !in Builtins && "|" !in words
  {
    if words == [] then Nothing
    else match FindBuiltin(words[0])
      case Some(i) => if HasRedirection(words) then BuiltinInChild(i) else BuiltinInShell(i)
      case None => if FindPipe(words) != -1 then RunPipeline else RunProgram
  }

  /**
   * The fork of a redirected built-in: attempt `n`. The child applies the
   * redirections and runs built-in `index` in place of `execvp`, exiting
   * with `BuiltinChildExit`; the shell waits for it and returns 1 whatever
   * the child does.
   */
  function LaunchBuiltin(index: nat, words: seq<string>, n: nat, fails: set<nat>): (r: Outcome)
    ensures r.status == 1 && r.next == n + 1
    ensures Spawns(r.trace) == []
  {
    if n in fails then Outcome(1, [], n + 1)
    else
      var t := [SpawnBuiltin(n, index, words), Wait(n)];
      assert Spawns(t) == [] by {
        assert t[1..] == [Wait(n)] && t[1..][1..] == [];
        assert Spawns(t[1..]) == [] + Spawns([]);
      }
      Outcome(1, t, n + 1)
  }

  /** The built-in child is waited for, and no program is started for the line. */
  lemma LaunchBuiltinReaps(index: nat, words: seq<string>, n: nat, fails: set<nat>)
    ensures var t := LaunchBuiltin(index, words, n, fails).trace;
      Reaped(t) && WaitedOnce(t) && Spawned(t) == (if n in fails then {} else {n})
  {
    var t := LaunchBuiltin(index, words, n, fails).trace;
    if n !in fails {
      assert t[0] in t && t[1] in t;
      OneChildWaited(SpawnBuiltin(n, index, words));
    } else {
      NothingStarted();
    }
  }

  /** `lsh_execute` as written: the value it returns and the process events. */
  function Execute(words: seq<string>, n: nat, fails: set<nat>): (r: Outcome)
    ensures r.status == 0 || r.status == 1
  {
    match Decide(words)
      case Nothing => Outcome(1, [], n)
      case BuiltinInShell(i) => Outcome(BuiltinResults[i], [], n)
      case BuiltinInChild(i) => LaunchBuiltin(i, words, n, fails)
      case RunPipeline => ExecutePipeline(words, n, fails)
      case RunProgram => Launch(words, n, fails)
  }

  /**
   * The exit status of the child that runs a built-in under redirection:
   * `EXIT_FAILURE` when `handle_redirection` fails, otherwise
   * `EXIT_SUCCESS` exactly when the built-in returns non-zero.
   */
  function BuiltinChildExit(index: nat, argv: seq<string>, env: Env): (status: int)
    requires index < |Builtins|
    ensures status == 0 <==> Resolve(argv, 0, env).error == None && Builtins[index] != "exit"
    ensures status == 0 || status == 1
  {
    if Resolve(argv, 0, env).error.Some? then 1
    else if BuiltinResults[index] != 0 then 0
    else 1
  }

  /** The shell ends exactly on a line whose first word is `exit` and that has no redirection. */
  lemma ExitEndsShell(words: seq<string>, n: nat, fails: set<nat>)
    ensures Execute(words, n, fails).status == 0 <==> words != [] && words[0] == "exit" && !HasRedirection(words)
  {
  }

  /** `exit > log` runs `exit` in a child, which exits with failure, and the shell carries on. */
  lemma RedirectedExitKeepsShell(n: nat, fails: set<nat>)
    ensures Execute(["exit", ">", "log"], n, fails).status == 1
    ensures BuiltinChildExit(2, ["exit", ">", "log"], Permissive) == 1
  {
    assert IsRedirection(["exit", ">", "log"][1]);
  }

  /**
   * A built-in is never run under the shell's own process when the line has
   * a redirection: one child runs it, with the whole line as its arguments,
   * no program is started, and the child is waited for.
   */
  lemma RedirectionForcesChild(words: seq<string>, n: nat, fails: set<nat>)
    requires words != [] && words[0] in Builtins && HasRedirection(words)
    ensures Decide(words).BuiltinInChild?
    ensures var t := Execute(words, n, fails).trace;
      && t == (if n in fails then [] else [SpawnBuiltin(n, Decide(words).index, words), Wait(n)])
      && Builtins[Decide(words).index] == words[0]
      && Reaped(t) && Spawns(t) == []
  {
    LaunchBuiltinReaps(Decide(words).index, words, n, fails);
  }

  /** Built-ins win over pipes: `echo a | wc` is `echo` with arguments `a`, `|` and `wc`, and starts no process. */
  lemma BuiltinBeforePipe(n: nat, fails: set<nat>)
    ensures Decide(["echo", "a", "|", "wc"]) == BuiltinInShell(4)
    ensures Execute(["echo", "a", "|", "wc"], n, fails).trace == []
  {
    var w := ["echo", "a", "|", "wc"];
    assert !IsRedirection(w[0]) && !IsRedirection(w[1]) && !IsRedirection(w[2]) && !IsRedirection(w[3]);
  }

  /** Every branch but the pipeline releases what it starts and waits for each child exactly once. */
  lemma ExecuteReapsOutsidePipelines(words: seq<string>, n: nat, fails: set<nat>)
    requires Decide(words) != RunPipeline
    ensures Reaped(Execute(words, n, fails).trace) && WaitedOnce(Execute(words, n, fails).trace)
  {
    if Decide(words).BuiltinInChild? {
      LaunchBuiltinReaps(Decide(words).index, words, n, fails);
    }
    LaunchReaps(words, n, fails);
    assert Reaped([]);
    NothingStarted();
  }

  /** `lsh_execute` with `execute_pipeline` replaced by `Chain`. */
  function ExecuteChained(words: seq<string>, n: nat, fails: set<nat>): (r: Outcome)
    ensures r.status == Execute(words, n, fails).status
  {
    match Decide(words)
      case RunPipeline => Chain(words, n, fails)
      case _ => Execute(words, n, fails)
  }

  /** With `Chain` for pipelines, every line releases what it starts and waits for each child exactly once, whatever fails. */
  lemma ExecuteChainedReaps(words: seq<string>, n: nat, fails: set<nat>)
    ensures Reaped(ExecuteChained(words, n, fails).trace) && WaitedOnce(ExecuteChained(words, n, fails).trace)
  {
    if Decide(words) == RunPipeline {
      ChainReaps(words, n, fails);
    } else {
      ExecuteReapsOutsidePipelines(words, n, fails);
    }
  }

  /**
   * Quoting does not protect `|`: the line `a "|" b` is tokenized to
   * `a`, `|`, `b` and dispatched as a pipeline.
   */
  lemma QuotedPipeIsPipeline()
    ensures Decide(Lexer.Tokenize("a \"|\" b")) == RunPipeline
  {
    Lexer.QuotedPipeIsBare();
    var w := ["a", "|", "b"];
    assert w[1] == "|";
  }
}
