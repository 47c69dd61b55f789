/** The argument rewrite at the start of
    `HandleFlagsArgumentParser.parse_known_args` (src/penai/utils/argparse.py):
    a `--name` argument whose default in the namespace is `False` is followed
    by an inserted "True", so that a keyword argument defaulting to False can
    be given as a bare flag. */
module Flags {
  import opened Wrappers
  import Chars

  /** A namespace value, as far as the rewrite looks at it: a bool, or anything
      else (None, a number, a string, ...), which is never `False` by identity. */
  datatype Setting = Flag(on: bool) | NotAFlag

  type Namespace = map<string, Setting>

  /** `arg.startswith("--") and "=" not in arg`: an argument whose namespace
      entry is looked up. */
  predicate Candidate(arg: string) {
    Chars.StartsWith(arg, "--") && '=' !in arg
  }

  /** The lookup `namespace[arg[2:]]` either is not made or finds its key. */
  predicate KeyKnown(arg: string, ns: Namespace) {
    Candidate(arg) ==> arg[2..] in ns
  }

  /** `namespace[arg[2:]] is False`, reached only for a candidate. */
  predicate IsFalseFlag(arg: string, ns: Namespace) {
    Candidate(arg) && arg[2..] in ns && ns[arg[2..]] == Flag(false)
  }

  /** One turn of the loop: the argument itself, then "True" for a flag whose
      default is False; a candidate whose key is missing raises KeyError. */
  function Expand(arg: string, ns: Namespace): (r: Result<seq<string>, Error>)
    ensures r.Success? <==> KeyKnown(arg, ns)
    ensures r.Failure? ==> r.error == MissingKey(arg[2..])
    ensures r.Success? && IsFalseFlag(arg, ns) ==> r.value == [arg, "True"]
    ensures r.Success? && !IsFalseFlag(arg, ns) ==> r.value == [arg]
  {
    if Candidate(arg) then
      if arg[2..] !in ns then Failure(MissingKey(arg[2..]))
      else if ns[arg[2..]] == Flag(false) then Success([arg, "True"])
      else Success([arg])
    else Success([arg])
  }

  /** How many arguments get a "True" after them. */
  function FlagCount(args: seq<string>, ns: Namespace): nat {
    if |args| == 0 then 0
    else (if IsFalseFlag(args[0], ns) then 1 else 0) + FlagCount(args[1..], ns)
  }

  /** Where argument `i` lands in the rewritten list: after the `i` arguments
      before it and the "True"s inserted after them. */
  function Pos(args: seq<string>, ns: Namespace, i: nat): nat
    requires i <= |args|
  {
    if i == 0 then 0
    else 1 + (if IsFalseFlag(args[0], ns) then 1 else 0) + Pos(args[1..], ns, i - 1)
  }

  /** `args[i]` is the first argument whose lookup raises. */
  predicate FirstUnknown(args: seq<string>, ns: Namespace, i: int) {
    0 <= i < |args| && !KeyKnown(args[i], ns) &&
    forall j :: 0 <= j < i ==> KeyKnown(args[j], ns)
  }

  /** The loop over `args`: every argument is kept, in order, and a "True"
      follows each flag whose default is False; the first missing key stops it. */
  function RewriteArgs(args: seq<string>, ns: Namespace): (r: Result<seq<string>, Error>)
    ensures r.Success? <==> forall i :: 0 <= i < |args| ==> KeyKnown(args[i], ns)
    ensures r.Failure? ==> exists i :: FirstUnknown(args, ns, i) && r.error == MissingKey(args[i][2..])
    ensures r.Success? ==> |r.value| == |args| + FlagCount(args, ns)
  {
    if |args| == 0 then Success([])
    else
      var tail := args[1..];
      assert forall i :: 0 < i < |args| ==> args[i] == tail[i - 1];
      var first :- Expand(args[0], ns);
      var rest :- RewriteArgs(tail, ns);
      Success(first + rest)
  }

  /** Every argument lands at its position, in order, and a "True" sits right
      after each flag whose default is False. */
  lemma {:induction false} RewritePositions(args: seq<string>, ns: Namespace)
    requires RewriteArgs(args, ns).Success?
    ensures var r := RewriteArgs(args, ns).value;
      && (forall i :: 0 <= i < |args| ==> Pos(args, ns, i) < |r| && r[Pos(args, ns, i)] == args[i])
      && (forall i :: 0 <= i < |args| && IsFalseFlag(args[i], ns) ==>
            Pos(args, ns, i) + 1 < |r| && r[Pos(args, ns, i) + 1] == "True")
  {
    if |args| > 0 {
      var tail := args[1..];
      RewritePositions(tail, ns);
      var first := Expand(args[0], ns).value;
      var rest := RewriteArgs(tail, ns).value;
      var r := RewriteArgs(args, ns).value;
      assert r == first + rest;
      forall i | 0 < i < |args|
        ensures Pos(args, ns, i) == |first| + Pos(tail, ns, i - 1) && args[i] == tail[i - 1]
      {
      }
    }
  }

  /** `parse_known_args` before parsing: with both a namespace and arguments the
      arguments are rewritten, otherwise they are passed on as they are. */
  function ArgsToParse(args: Option<seq<string>>, ns: Option<Namespace>): (r: Result<Option<seq<string>>, Error>)
    ensures args.None? || ns.None? ==> r == Success(args)
    ensures args.Some? && ns.Some? ==>
      (r.Success? <==> RewriteArgs(args.value, ns.value).Success?)
      && (r.Success? ==> r.value == Some(RewriteArgs(args.value, ns.value).value))
  {
    if args.Some? && ns.Some? then
      var rewritten :- RewriteArgs(args.value, ns.value);
      Success(Some(rewritten))
    else Success(args)
  }

  /** Every place of the rewritten list holds an argument or an inserted "True":
      nothing else is added. */
  lemma {:induction false} OutputCovered(args: seq<string>, ns: Namespace, j: nat)
    requires RewriteArgs(args, ns).Success? && j < |RewriteArgs(args, ns).value|
    ensures exists i :: ArgumentOrItsTrue(args, ns, i, j)
  {
    var tail := args[1..];
    var first := Expand(args[0], ns).value;
    if j >= |first| {
      OutputCovered(tail, ns, j - |first|);
      var i :| ArgumentOrItsTrue(tail, ns, i, j - |first|);
      assert args[i + 1] == tail[i];
      assert ArgumentOrItsTrue(args, ns, i + 1, j);
    } else {
      assert ArgumentOrItsTrue(args, ns, 0, j);
    }
  }

  /** Place `j` of the output is argument `i` or the "True" inserted after it. */
  predicate ArgumentOrItsTrue(args: seq<string>, ns: Namespace, i: int, j: nat) {
    0 <= i < |args| && (j == Pos(args, ns, i) || (IsFalseFlag(args[i], ns) && j == Pos(args, ns, i) + 1))
  }

  /** A missing key for a later candidate never hides an earlier one: the error
      names the first argument whose lookup fails. */
  lemma MissingKeyFirst(ns: Namespace)
    requires "a" !in ns && "b" !in ns
    ensures RewriteArgs(["--a", "--b"], ns) == Failure(MissingKey("a"))
  {
    var args := ["--a", "--b"];
    assert Candidate(args[0]) && args[0][2..] == "a";
    assert args[..1] == ["--a"] && args[..1][..0] == [];
  }
}
