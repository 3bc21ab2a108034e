/**
 The delimiter check of scripts/check_duplicate_code_ratchet.py: whether a run of operator tokens
 leaves a bracket unclosed, and what its stack decides about bracket nesting.
 */
module Brackets {
  import opened Wrappers

  /** The closing bracket an opening one waits for. */
  function Closer(op: string): Option<string> {
    match op
    case "(" => Some(")")
    case "[" => Some("]")
    case "{" => Some("}")
    case _ => None
  }

  predicate IsCloser(op: string) {
    op == ")" || op == "]" || op == "}"
  }

  /** The stack machine: true when some bracket does not match or is never closed. */
  predicate Unclosed(ops: seq<string>, stack: seq<string>) {
    if ops == [] then stack != []
    else if Closer(ops[0]).Some? then Unclosed(ops[1..], stack + [Closer(ops[0]).value])
    else if IsCloser(ops[0]) then
      stack == [] || stack[|stack| - 1] != ops[0] || Unclosed(ops[1..], stack[..|stack| - 1])
    else Unclosed(ops[1..], stack)
  }

  /** Properly nested operator runs: bracketed groups and other operators, side by side. */
  datatype Nesting = Done | Group(open: string, inside: Nesting, rest: Nesting) | Other(op: string, rest: Nesting)

  ghost predicate Proper(n: Nesting) {
    match n
    case Done => true
    case Group(open, inside, rest) => Closer(open).Some? && Proper(inside) && Proper(rest)
    case Other(op, rest) => Closer(op).None? && !IsCloser(op) && Proper(rest)
  }

  ghost function Flatten(n: Nesting): seq<string>
    requires Proper(n)
  {
    match n
    case Done => []
    case Group(open, inside, rest) => [open] + Flatten(inside) + [Closer(open).value] + Flatten(rest)
    case Other(op, rest) => [op] + Flatten(rest)
  }

  ghost predicate Nested(ops: seq<string>) {
    exists n :: Proper(n) && Flatten(n) == ops
  }

  /** A properly nested run leaves the stack as it found it. */
  lemma {:induction false} NestingKeepsStack(n: Nesting, after: seq<string>, stack: seq<string>)
    requires Proper(n)
    ensures Unclosed(Flatten(n) + after, stack) == Unclosed(after, stack)
  {
    match n
    case Done =>
      assert [] + after == after;
    case Group(open, inside, rest) =>
      var close := Closer(open).value;
      var all := Flatten(n) + after;
      var tail := [close] + (Flatten(rest) + after);
      assert all[1..] == Flatten(inside) + tail;
      NestingKeepsStack(inside, tail, stack + [close]);
      assert tail[1..] == Flatten(rest) + after;
      assert (stack + [close])[..|stack|] == stack;
      NestingKeepsStack(rest, after, stack);
    case Other(op, rest) =>
      assert (Flatten(n) + after)[1..] == Flatten(rest) + after;
      NestingKeepsStack(rest, after, stack);
  }

  lemma SkipSlices(ops: seq<string>, i: nat, j: nat)
    requires i + 2 + j <= |ops|
    ensures ops[1..][i + 1..] == ops[i + 2..]
    ensures ops[i + 2..][j..] == ops[i + 2 + j..]
    ensures ops[..i + 2 + j] == [ops[0]] + ops[1..][..i] + [ops[i + 1]] + ops[i + 2..][..j]
  {}

  /** An accepted run starts with a properly nested part, up to the closer the stack waits for. */
  lemma {:induction false} AcceptedNesting(ops: seq<string>, stack: seq<string>) returns (n: Nesting, k: nat)
    requires !Unclosed(ops, stack)
    ensures Proper(n) && k <= |ops| && Flatten(n) == ops[..k]
    ensures stack == [] ==> k == |ops|
    ensures stack != [] ==> k < |ops| && ops[k] == stack[|stack| - 1]
    ensures stack != [] ==> !Unclosed(ops[k..][1..], stack[..|stack| - 1])
    decreases |ops|
  {
    if ops == [] || IsCloser(ops[0]) {
      n, k := Done, 0;
      assert ops[0..] == ops;
    } else if Closer(ops[0]).Some? {
      n, k := AcceptedGroup(ops, stack);
    } else {
      var rest, j := AcceptedNesting(ops[1..], stack);
      n, k := Other(ops[0], rest), 1 + j;
      assert ops[..k] == [ops[0]] + ops[1..][..j];
      assert ops[1..][j..] == ops[k..];
    }
  }

  lemma {:induction false} AcceptedGroup(ops: seq<string>, stack: seq<string>) returns (n: Nesting, k: nat)
    requires !Unclosed(ops, stack) && ops != [] && Closer(ops[0]).Some?
    ensures Proper(n) && k <= |ops| && Flatten(n) == ops[..k]
    ensures stack == [] ==> k == |ops|
    ensures stack != [] ==> k < |ops| && ops[k] == stack[|stack| - 1]
    ensures stack != [] ==> !Unclosed(ops[k..][1..], stack[..|stack| - 1])
    decreases |ops|, 0
  {
    var close := Closer(ops[0]).value;
    assert !Unclosed(ops[1..], stack + [close]);
    hide Unclosed, Proper, Flatten, Closer;
    var waiting := stack + [close];
    assert waiting[..|stack|] == stack && waiting[|stack|] == close;
    var inside, i := AcceptedNesting(ops[1..], waiting);
    var tail := ops[i + 2..];
    assert ops[1..][i..][1..] == tail;
    var rest, j := AcceptedNesting(tail, stack);
    n, k := Group(ops[0], inside, rest), i + 2 + j;
    GroupFlattens(ops, inside, rest, i, j);
    assert tail[j..] == ops[k..];
    assert j < |tail| ==> tail[j] == ops[k];
  }

  lemma GroupFlattens(ops: seq<string>, inside: Nesting, rest: Nesting, i: nat, j: nat)
    requires i + 2 + j <= |ops| && Proper(inside) && Proper(rest)
    requires Closer(ops[0]) == Some(ops[1..][i])
    requires Flatten(inside) == ops[1..][..i] && Flatten(rest) == ops[i + 2..][..j]
    ensures Proper(Group(ops[0], inside, rest)) && Flatten(Group(ops[0], inside, rest)) == ops[..i + 2 + j]
  {
    SkipSlices(ops, i, j);
  }

  /** The stack machine accepts exactly the properly nested runs. */
  lemma ClosedIffNested(ops: seq<string>)
    ensures !Unclosed(ops, []) <==> Nested(ops)
  {
    if !Unclosed(ops, []) {
      var n, k := AcceptedNesting(ops, []);
      assert ops[..k] == ops;
    }
    forall n | Proper(n) && Flatten(n) == ops ensures !Unclosed(ops, []) {
      NestingKeepsStack(n, [], []);
      assert Flatten(n) + [] == ops;
    }
  }

  /** An opening bracket and one more operator are accepted exactly when they are `()`, `[]` or `{}`. */
  lemma PairsThatClose(open: string, close: string)
    requires open in {"(", "[", "{"}
    ensures !Unclosed([open, close], []) <==>
      || (open == "(" && close == ")") || (open == "[" && close == "]") || (open == "{" && close == "}")
  {
    var stack := [Closer(open).value];
    assert [open, close][1..] == [close] && [close][1..] == [];
    assert [] + stack == stack && stack[..0] == [];
    assert !Unclosed([open, close], []) <==> !Unclosed([close], stack);
    if close == Closer(open).value {
      assert !Unclosed([close], stack);
    } else {
      assert Unclosed([close], stack) by {
        if Closer(close).Some? {
          assert (stack + [Closer(close).value]) != [];
        }
      }
    }
  }

  /** A closing bracket alone, and an opening one alone, are refused; any other operator is accepted. */
  lemma SingleOperators(op: string)
    ensures !Unclosed([op], []) <==> op !in {"(", "[", "{", ")", "]", "}"}
  {
    assert [op][1..] == [];
  }
}
