/**
 * Building the argument list of a child process from a tree of arguments:
 * plain strings, words, `-tag name=value` sub-options and nested lists.
 * Go's `[]interface{}` is a sequence of `Arg`; an element of any other type
 * (which makes the Go code panic) is `Other` and is excluded by `WellFormed`.
 */
module Spawn {
  const SwitchPrefixShort := "-"

  /** One element of an argument list. */
  datatype Arg =
    | Str(s: string)
    | Word(name: string)
    | SubOption(tag: string, name: string, value: string)
    | List(items: seq<Arg>)
    | Other(typeName: string)

  /** No element anywhere in the tree has a type the flattening cannot handle. */
  predicate WellFormed(a: Arg)
  {
    match a
    case Other(_) => false
    case List(items) => WellFormedAll(items)
    case _ => true
  }

  predicate WellFormedAll(args: seq<Arg>)
  {
    forall i :: 0 <= i < |args| ==> WellFormed(args[i])
  }

  /** The strings one element stands for. */
  function FlattenOne(a: Arg): seq<string>
    requires WellFormed(a)
  {
    match a
    case Str(s) => [s]
    case Word(name) => [name]
    case SubOption(tag, name, value) => [SwitchPrefixShort + tag, name + "=" + value]
    case List(items) => Flatten(items)
  }

  /** The strings an argument list stands for, left to right. */
  function Flatten(args: seq<Arg>): (r: seq<string>)
    requires WellFormedAll(args)
    ensures (forall i :: 0 <= i < |args| ==> !args[i].List?) ==> |args| <= |r| <= 2 * |args|
  {
    if args == [] then [] else Flatten(args[..|args| - 1]) + FlattenOne(args[|args| - 1])
  }

  /** Flattening distributes over concatenation. */
  lemma {:induction false} FlattenConcat(a: seq<Arg>, b: seq<Arg>)
    requires WellFormedAll(a) && WellFormedAll(b)
    ensures WellFormedAll(a + b)
    ensures Flatten(a + b) == Flatten(a) + Flatten(b)
    decreases |b|
  {
    assert WellFormedAll(a + b) by {
      forall i | 0 <= i < |a + b| ensures WellFormed((a + b)[i]) {
        if i >= |a| { assert (a + b)[i] == b[i - |a|]; }
      }
    }
    if b == [] {
      assert a + b == a;
    } else {
      var b' := b[..|b| - 1];
      assert (a + b)[..|a + b| - 1] == a + b';
      assert (a + b)[|a + b| - 1] == b[|b| - 1];
      FlattenConcat(a, b');
    }
  }

  /** `recursiveAdd`: appends the flattened arguments to `ret`, descending into nested lists. */
  method RecursiveAdd(ret: seq<string>, args: seq<Arg>) returns (out: seq<string>)
    requires WellFormedAll(args)
    ensures out == ret + Flatten(args)
    decreases args
  {
    out := ret;
    var i := 0;
    while i < |args|
      invariant 0 <= i <= |args|
      invariant out == ret + Flatten(args[..i])
    {
      assert args[..i + 1][..i] == args[..i];
      match args[i] {
        case Str(s) =>
          out := out + [s];
        case Word(name) =>
          out := out + [name];
        case SubOption(tag, name, value) =>
          out := out + [SwitchPrefixShort + tag, name + "=" + value];
        case List(items) =>
          out := RecursiveAdd(out, items);
      }
      i := i + 1;
    }
    assert args[..i] == args;
  }

  /** `MkRawSpawnArgs`: the flattened argument list. */
  method MkRawSpawnArgs(args: seq<Arg>) returns (ret: seq<string>)
    requires WellFormedAll(args)
    ensures ret == Flatten(args)
  {
    ret := RecursiveAdd([], args);
  }

  /** `AppendToArgs`: the element goes last. */
  function AppendToArgs(toThis: seq<Arg>, arg: Arg): (r: seq<Arg>)
    ensures |r| == |toThis| + 1 && r[..|toThis|] == toThis && r[|toThis|] == arg
  {
    toThis + [arg]
  }

  /** `PrependToArgs`: the element goes first. */
  function PrependToArgs(toThis: seq<Arg>, arg: Arg): (r: seq<Arg>)
    ensures |r| == |toThis| + 1 && r[0] == arg && r[1..] == toThis
  {
    [arg] + toThis
  }

  /** Appending and prepending an element add its strings at the end and at the front. */
  lemma FlattenAppendPrepend(args: seq<Arg>, a: Arg)
    requires WellFormedAll(args) && WellFormed(a)
    ensures WellFormedAll(AppendToArgs(args, a)) && WellFormedAll(PrependToArgs(args, a))
    ensures Flatten(AppendToArgs(args, a)) == Flatten(args) + FlattenOne(a)
    ensures Flatten(PrependToArgs(args, a)) == FlattenOne(a) + Flatten(args)
  {
    FlattenSingle(a);
    assert AppendToArgs(args, a) == args + [a];
    assert PrependToArgs(args, a) == [a] + args;
    FlattenConcat(args, [a]);
    FlattenConcat([a], args);
  }

  /** A one-element list flattens to the strings of its element. */
  lemma FlattenSingle(a: Arg)
    requires WellFormed(a)
    ensures WellFormedAll([a]) && Flatten([a]) == FlattenOne(a)
  {
    assert [a][..0] == [];
  }

  /** The lists one after the other, without looking inside their elements. */
  function Concat(argsArr: seq<seq<Arg>>): seq<Arg>
  {
    if argsArr == [] then [] else Concat(argsArr[..|argsArr| - 1]) + argsArr[|argsArr| - 1]
  }

  /** `ComposeArgs`: copies the elements of every list, in order, into one list. */
  method ComposeArgs(argsArr: seq<seq<Arg>>) returns (toThis: seq<Arg>)
    ensures toThis == Concat(argsArr)
  {
    toThis := [];
    var i := 0;
    while i < |argsArr|
      invariant 0 <= i <= |argsArr|
      invariant toThis == Concat(argsArr[..i])
    {
      assert argsArr[..i + 1][..i] == argsArr[..i];
      var list := argsArr[i];
      var j := 0;
      while j < |list|
        invariant 0 <= j <= |list|
        invariant toThis == Concat(argsArr[..i]) + list[..j]
      {
        assert list[..j + 1] == list[..j] + [list[j]];
        toThis := toThis + [list[j]];
        j := j + 1;
      }
      assert list[..j] == list;
      i := i + 1;
    }
    assert argsArr[..i] == argsArr;
  }

  /** Composing keeps every element: the lengths add up, and nested lists stay nested. */
  lemma {:induction false} ConcatElements(argsArr: seq<seq<Arg>>, k: nat, n: nat)
    requires k < |argsArr| && n < |argsArr[k]|
    ensures |Concat(argsArr[..k])| + n < |Concat(argsArr)|
    ensures Concat(argsArr)[|Concat(argsArr[..k])| + n] == argsArr[k][n]
    decreases |argsArr|
  {
    var last := |argsArr| - 1;
    assert argsArr[..last] == argsArr[..|argsArr| - 1];
    if k < last {
      assert argsArr[..last][..k] == argsArr[..k];
      ConcatElements(argsArr[..last], k, n);
    } else {
      assert argsArr[..k] == argsArr[..last];
    }
  }

  /** Flattening the composed list is flattening each list in turn. */
  lemma {:induction false} FlattenComposed(argsArr: seq<seq<Arg>>)
    requires forall i :: 0 <= i < |argsArr| ==> WellFormedAll(argsArr[i])
    ensures WellFormedAll(Concat(argsArr))
    ensures Flatten(Concat(argsArr)) == FlattenEach(argsArr)
    decreases |argsArr|
  {
    if argsArr != [] {
      var init := argsArr[..|argsArr| - 1];
      FlattenComposed(init);
      FlattenConcat(Concat(init), argsArr[|argsArr| - 1]);
    }
  }

  /** Each list flattened, one after the other. */
  function FlattenEach(argsArr: seq<seq<Arg>>): seq<string>
    requires forall i :: 0 <= i < |argsArr| ==> WellFormedAll(argsArr[i])
  {
    if argsArr == [] then []
    else FlattenEach(argsArr[..|argsArr| - 1]) + Flatten(argsArr[|argsArr| - 1])
  }

  /** `addEnv`: adds one `key=value` entry taken from the map, whichever the iteration meets first. */
  method AddEnv(toThisEnv: seq<string>, thisEnv: map<string, string>) returns (r: seq<string>)
    ensures |thisEnv| == 0 ==> r == toThisEnv
    ensures |thisEnv| > 0 ==> exists k :: k in thisEnv && r == toThisEnv + [k + "=" + thisEnv[k]]
  {
    if |thisEnv| == 0 {
      return toThisEnv;
    }
    assert thisEnv.Keys != {};
    var k :| k in thisEnv;
    return toThisEnv + [k + "=" + thisEnv[k]];
  }
}
