/**
 * A command-line flag that only takes values from a fixed list: setting it
 * to anything else is refused with an error and leaves it as it was.
 */
module EnumTypeFlag {
  import opened Wrappers
  import opened Strings
  import opened FlagValues

  /** True when `val` is one of `opts`, found by scanning them in order. */
  method IsIncluded(opts: seq<string>, val: string) returns (found: bool)
    ensures found <==> val in opts
  {
    var i := 0;
    while i < |opts|
      invariant 0 <= i <= |opts|
      invariant val !in opts[..i]
    {
      if val == opts[i] {
        return true;
      }
      i := i + 1;
    }
    assert opts[..i] == opts;
    return false;
  }

  /** The message of a refused value. */
  function NotIncludedMessage(p: string, allowed: seq<string>): string
  {
    p + " is not included in " + Join(allowed, ",")
  }

  /** The value after `Set(p)`: `p` when it is allowed, the old value otherwise. */
  function SetValue(allowed: seq<string>, value: string, p: string): string
  {
    if p in allowed then p else value
  }

  /** The value after a sequence of `Set` calls. */
  function Replay(allowed: seq<string>, value: string, ps: seq<string>): string
    decreases |ps|
  {
    if ps == [] then value else Replay(allowed, SetValue(allowed, value, ps[0]), ps[1..])
  }

  /** An allowed value stays allowed whatever is set afterwards. */
  lemma {:induction false} ReplayStaysAllowed(allowed: seq<string>, value: string, ps: seq<string>)
    requires value in allowed
    ensures Replay(allowed, value, ps) in allowed
    decreases |ps|
  {
    if ps != [] {
      ReplayStaysAllowed(allowed, SetValue(allowed, value, ps[0]), ps[1..]);
    }
  }

  /** The value after a sequence of `Set` calls is the last allowed value among them, or the initial one. */
  lemma {:induction false} ReplayIsLastAllowed(allowed: seq<string>, value: string, ps: seq<string>)
    ensures (forall i :: 0 <= i < |ps| ==> ps[i] !in allowed) ==> Replay(allowed, value, ps) == value
    ensures |ps| > 0 && ps[|ps| - 1] in allowed ==> Replay(allowed, value, ps) == ps[|ps| - 1]
    decreases |ps|
  {
    if ps != [] {
      ReplayIsLastAllowed(allowed, SetValue(allowed, value, ps[0]), ps[1..]);
      if |ps| > 1 {
        assert ps[1..][|ps| - 2] == ps[|ps| - 1];
      }
    }
  }

  /** `EnumFlag`: the allowed values and the current value. */
  class EnumFlag {
    var allowed: seq<string>
    var value: string

    /** The current value is one of the allowed ones. */
    predicate Valid()
      reads this
    {
      value in allowed
    }

    /** `NewEnumFlag`: the default is taken as given, without checking it. */
    constructor (allowed: seq<string>, defaultValue: string)
      ensures this.allowed == allowed && value == defaultValue
    {
      this.allowed := allowed;
      value := defaultValue;
    }

    /** The flag's text is its current value. */
    function String(): (s: string)
      reads this
      ensures s == value
    {
      value
    }

    /** The flag's type name, whatever its value. */
    function Type(): (t: string)
      ensures t == "string"
    {
      "string"
    }

    /** `Set(p)`: an allowed value is taken, any other is refused and changes nothing. */
    method Set(p: string) returns (err: Option<string>)
      modifies this
      ensures allowed == old(allowed)
      ensures value == SetValue(old(allowed), old(value), p)
      ensures err == None <==> p in allowed
      ensures err.Some? ==> err.value == NotIncludedMessage(p, allowed) && value == old(value)
      ensures old(Valid()) ==> Valid()
    {
      var included := IsIncluded(allowed, p);
      if !included {
        return Some(NotIncludedMessage(p, allowed));
      }
      value := p;
      return None;
    }
  }

  /** The image set type flag: defaults to `Auto`, which is one of its values. */
  method GetImageSetTypeFlag() returns (f: EnumFlag)
    ensures fresh(f) && f.allowed == ImageSetTypeValues && f.value == ImageSetAuto && f.Valid()
  {
    f := new EnumFlag(ImageSetTypeValues, ImageSetAuto);
  }

  /** The operator mode flag: defaults to `Auto`, which is one of its values. */
  method GetOperatorModeFlag() returns (f: EnumFlag)
    ensures fresh(f) && f.allowed == OperatorModeValues && f.value == OperatorAuto && f.Valid()
  {
    f := new EnumFlag(OperatorModeValues, OperatorAuto);
  }

  /** The image set type flag keeps a listed value through any sequence of `Set` calls. */
  lemma ImageSetTypeFlagStaysAllowed(ps: seq<string>)
    ensures Replay(ImageSetTypeValues, ImageSetAuto, ps) in ImageSetTypeValues
  {
    ReplayStaysAllowed(ImageSetTypeValues, ImageSetAuto, ps);
  }
}
