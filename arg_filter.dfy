/**
 * The loop at the top of `main` (cargo-hf2/src/main.rs) that takes the
 * tool's own `--pid` and `--vid` options out of the argument vector before
 * the rest is handed to `cargo build`. For each flag it finds the FIRST
 * occurrence and calls `Vec::remove` twice at that index: once for the flag,
 * once for whatever follows it. A pass panics with an index out of bounds
 * exactly when the first occurrence of its flag, in the vector that pass
 * sees, is that vector's last element.
 */
module ArgFilter {
  import opened Wrappers

  /** The flags are handled in this order. */
  const TOOL_FLAGS: seq<string> := ["--pid", "--vid"]

  /** The panic of `Vec::remove`: `index` is not below the length `len`. */
  datatype RemovePanic = RemovePanic(index: nat, len: nat)

  /** `args.iter().position(|x| x == flag)`: the first index holding `flag`. */
  function Position<T(==)>(args: seq<T>, flag: T): (r: Option<nat>)
    ensures r.Some? ==> r.value < |args| && args[r.value] == flag
    ensures r.Some? ==> forall j :: 0 <= j < r.value ==> args[j] != flag
    ensures r.None? <==> flag !in args
  {
    PositionFrom(args, flag, 0)
  }

  /** The iterator of `position`, having passed the first `start` elements without a match. */
  function PositionFrom<T(==)>(args: seq<T>, flag: T, start: nat): (r: Option<nat>)
    requires start <= |args|
    ensures r.Some? ==> start <= r.value < |args| && args[r.value] == flag
    ensures r.Some? ==> forall j :: start <= j < r.value ==> args[j] != flag
    ensures r.None? <==> flag !in args[start..]
    decreases |args| - start
  {
    if start == |args| then None
    else if args[start] == flag then Some(start)
    else
      assert args[start..] == [args[start]] + args[start + 1..];
      PositionFrom(args, flag, start + 1)
  }

  /** `Vec::remove(index)` on a vector whose contents are `args`. */
  function Remove<T>(args: seq<T>, index: nat): (r: Result<seq<T>, RemovePanic>)
    ensures r.Err? <==> index >= |args|
    ensures r.Ok? ==> |r.value| == |args| - 1
    ensures r.Ok? ==> r.value[..index] == args[..index] && r.value[index..] == args[index + 1..]
  {
    if index < |args| then Ok(args[..index] + args[index + 1..]) else Err(RemovePanic(index, |args|))
  }

  /** One pass of the loop body, for one flag. */
  function StripFlag<T(==)>(args: seq<T>, flag: T): (r: Result<seq<T>, RemovePanic>)
    ensures flag !in args ==> r == Ok(args)
    ensures r.Err? ==> flag in args
    ensures r.Ok? && flag in args ==> |r.value| == |args| - 2
  {
    match Position(args, flag)
    case None => Ok(args)
    case Some(index) =>
      match Remove(args, index)
      case Err(p) => Err(p)
      case Ok(once) => Remove(once, index)
  }

  /** The loop over `flags`, stopping at the first panic. */
  function StripFlags<T(==)>(args: seq<T>, flags: seq<T>): (r: Result<seq<T>, RemovePanic>)
    ensures r.Ok? ==> |r.value| <= |args|
    decreases |flags|
  {
    if |flags| == 0 then Ok(args)
    else
      match StripFlags(args, flags[..|flags| - 1])
      case Err(p) => Err(p)
      case Ok(rest) => StripFlag(rest, flags[|flags| - 1])
  }

  /** What the tool forwards to `cargo build`, or the panic that stops it: `--pid` first, then `--vid`. */
  function StripToolFlagsSpec(args: seq<string>): (r: Result<seq<string>, RemovePanic>)
    ensures r.Ok? ==> |r.value| <= |args| && (|args| - |r.value|) % 2 == 0
  {
    match StripFlag(args, "--pid")
    case Err(p) => Err(p)
    case Ok(rest) => StripFlag(rest, "--vid")
  }

  /** The loop itself, rewriting its local vector in place. */
  method StripToolFlags(args: seq<string>) returns (r: Result<seq<string>, RemovePanic>)
    ensures r == StripToolFlagsSpec(args)
  {
    var v := args;
    for k := 0 to |TOOL_FLAGS|
      invariant StripFlags(args, TOOL_FLAGS[..k]) == Ok(v)
    {
      assert TOOL_FLAGS[..k + 1][..k] == TOOL_FLAGS[..k];
      var position := Position(v, TOOL_FLAGS[k]);
      if position.Some? {
        var index := position.value;
        v := v[..index] + v[index + 1..];
        if index >= |v| {
          ToolFlagsLoopPanic(args, k);
          return Err(RemovePanic(index, |v|));
        }
        v := v[..index] + v[index + 1..];
      }
    }
    assert TOOL_FLAGS[..|TOOL_FLAGS|] == TOOL_FLAGS;
    ToolFlagsLoop(args);
    return Ok(v);
  }

  // ---------------------------------------------------------------------
  // What one pass does
  // ---------------------------------------------------------------------

  /**
   * One pass removes exactly the first occurrence of the flag and the element
   * right after it, keeping every other argument in order; it panics exactly
   * when that first occurrence is the last argument; without the flag it
   * changes nothing.
   */
  lemma StripFlagEffect<T>(args: seq<T>, flag: T)
    ensures flag !in args ==> StripFlag(args, flag) == Ok(args)
    ensures flag in args ==>
      var i := Position(args, flag).value;
      && (StripFlag(args, flag).Err? <==> i == |args| - 1)
      && (StripFlag(args, flag).Err? ==> StripFlag(args, flag).error == RemovePanic(i, |args| - 1))
      && (StripFlag(args, flag).Ok? ==> StripFlag(args, flag).value == args[..i] + args[i + 2..])
  {
    if flag in args {
      var i := Position(args, flag).value;
      var once := args[..i] + args[i + 1..];
      assert Remove(args, i) == Ok(once);
      if i < |args| - 1 {
        assert once[..i] == args[..i];
        assert once[i + 1..] == args[i + 2..];
        assert StripFlag(args, flag) == Ok(args[..i] + args[i + 2..]);
      } else {
        assert StripFlag(args, flag) == Err(RemovePanic(i, |args| - 1));
      }
    }
  }

  /** Taking the two elements at `i` and `i + 1` out of a sequence takes exactly them out of its multiset. */
  lemma MultisetWithoutPair<T>(args: seq<T>, i: nat)
    requires i < |args| - 1
    ensures multiset(args) == multiset(args[..i] + args[i + 2..]) + multiset{args[i], args[i + 1]}
  {
    var before, after := args[..i], args[i + 2..];
    assert args == before + ([args[i], args[i + 1]] + after);
  }

  /** One pass loses two arguments and nothing else: the flag and the token after it. */
  lemma StripFlagMultiset<T>(args: seq<T>, flag: T)
    requires flag in args && Position(args, flag).value < |args| - 1
    ensures StripFlag(args, flag).Ok?
    ensures var i := Position(args, flag).value;
      multiset(args) == multiset(StripFlag(args, flag).value) + multiset{args[i], args[i + 1]}
  {
    StripFlagEffect(args, flag);
    MultisetWithoutPair(args, Position(args, flag).value);
  }

  /** One pass never adds an argument. */
  lemma StripFlagShrinks<T>(args: seq<T>, flag: T)
    requires StripFlag(args, flag).Ok?
    ensures multiset(StripFlag(args, flag).value) <= multiset(args)
  {
    StripFlagEffect(args, flag);
    if flag in args {
      StripFlagMultiset(args, flag);
    }
  }

  // ---------------------------------------------------------------------
  // The whole loop
  // ---------------------------------------------------------------------

  /** With neither flag present the arguments are forwarded unchanged. */
  lemma NoToolFlagsUnchanged(args: seq<string>)
    requires "--pid" !in args && "--vid" !in args
    ensures StripToolFlagsSpec(args) == Ok(args)
  {
    StripFlagEffect(args, "--pid");
    StripFlagEffect(args, "--vid");
  }

  /** The loop over `TOOL_FLAGS` is the two passes in sequence. */
  lemma ToolFlagsLoop(args: seq<string>)
    ensures StripFlags(args, TOOL_FLAGS) == StripToolFlagsSpec(args)
  {
    var pidOnly := TOOL_FLAGS[..1];
    assert pidOnly == ["--pid"] && pidOnly[..0] == [];
    assert StripFlags(args, pidOnly) == StripFlag(args, "--pid");
  }

  /** A panic in pass `k` is the outcome of the whole loop. */
  lemma ToolFlagsLoopPanic(args: seq<string>, k: nat)
    requires k < |TOOL_FLAGS| && StripFlags(args, TOOL_FLAGS[..k + 1]).Err?
    ensures StripToolFlagsSpec(args) == StripFlags(args, TOOL_FLAGS[..k + 1])
  {
    ToolFlagsLoop(args);
    if k == 0 {
      assert TOOL_FLAGS[..k + 1][..0] == TOOL_FLAGS[..0];
    } else {
      assert TOOL_FLAGS[..k + 1] == TOOL_FLAGS;
    }
  }

  /** The example of the tool's usage: `--vid 0x1234` is taken out, the rest kept in order. */
  lemma StripExample()
    ensures StripToolFlagsSpec(["--release", "--vid", "0x1234", "--bin", "foo"]) == Ok(["--release", "--bin", "foo"])
  {
    var args := ["--release", "--vid", "0x1234", "--bin", "foo"];
    NotToolFlag("--release");
    NotToolFlag("0x1234");
    NotToolFlag("--bin");
    NotToolFlag("foo");
    assert "--pid" !in args;
    StripFlagEffect(args, "--pid");
    assert Position(args, "--vid") == Some(1);
    StripFlagEffect(args, "--vid");
    assert args[..1] + args[3..] == ["--release", "--bin", "foo"];
  }

  /** Neither tool flag is equal to a string whose third character is not 'p' or 'v'. */
  lemma NotToolFlag(s: string)
    requires |s| < 3 || (s[2] != 'p' && s[2] != 'v')
    ensures s != "--pid" && s != "--vid"
  {
  }

  /** Only the first occurrence goes: a repeated `--pid` survives once, so a second run strips again. */
  lemma RepeatedFlagSurvives()
    ensures StripToolFlagsSpec(["--pid", "1", "--pid", "2"]) == Ok(["--pid", "2"])
    ensures StripToolFlagsSpec(["--pid", "2"]) == Ok([])
  {
    var args := ["--pid", "1", "--pid", "2"];
    var once: seq<string> := ["--pid", "2"];
    StripFlagEffect(args, "--pid");
    assert Position(args, "--pid") == Some(0);
    assert args[..0] + args[2..] == once;
    assert "--vid" !in once by { assert once[0] != "--vid" && once[1] != "--vid"; }
    StripFlagEffect(once, "--vid");
    StripFlagEffect(once, "--pid");
    StripFlagEffect([], "--vid");
  }

  /**
   * A trailing flag need not panic: when an earlier occurrence comes first,
   * that one and its value go, and the trailing one is forwarded.
   */
  lemma TrailingRepeatForwarded()
    ensures StripToolFlagsSpec(["--pid", "1", "--pid"]) == Ok(["--pid"])
  {
    var args := ["--pid", "1", "--pid"];
    assert Position(args, "--pid") == Some(0);
    StripFlagEffect(args, "--pid");
    assert args[..0] + args[2..] == ["--pid"];
    StripFlagEffect(["--pid"], "--vid");
  }

  /**
   * A panic need not come from a flag that is last in the input: the `--pid`
   * pass can leave `--vid` last for the `--vid` pass.
   */
  lemma PanicAfterEarlierPass()
    ensures StripToolFlagsSpec(["--vid", "--pid", "5"]) == Err(RemovePanic(0, 0))
  {
    var args := ["--vid", "--pid", "5"];
    assert Position(args, "--pid") == Some(1);
    StripFlagEffect(args, "--pid");
    assert args[..1] + args[3..] == ["--vid"];
    StripFlagEffect(["--vid"], "--vid");
  }

  /**
   * Only an argument equal to a tool flag is taken out: the `--pid=VALUE`
   * spelling is forwarded to `cargo build` as it is.
   */
  lemma EqualsSpellingForwarded(value: string)
    ensures StripToolFlagsSpec(["--pid=" + value]) == Ok(["--pid=" + value])
  {
    var arg := "--pid=" + value;
    assert arg[5] == '=';
    assert arg != "--pid" && arg != "--vid";
    NoToolFlagsUnchanged([arg]);
  }

  /** A tool flag that is last, with no tool flag before it, makes the second `remove` panic. */
  lemma TrailingFlagPanics(args: seq<string>, flag: string)
    requires flag in TOOL_FLAGS && "--pid" !in args && "--vid" !in args
    ensures StripToolFlagsSpec(args + [flag]) == Err(RemovePanic(|args|, |args|))
  {
    var full := args + [flag];
    assert Position(full, flag) == Some(|args|) by {
      assert full[|args|] == flag;
      assert forall j :: 0 <= j < |args| ==> full[j] == args[j];
    }
    StripFlagEffect(full, flag);
    if flag == "--vid" {
      assert "--pid" !in full by {
        assert forall j :: 0 <= j < |full| ==> full[j] == (if j < |args| then args[j] else flag);
      }
      StripFlagEffect(full, "--pid");
    }
  }

  /**
   * Stripping twice is the same as stripping once when each flag occurs at
   * most once: after the first run neither flag is left.
   */
  lemma StripIdempotentForSingleFlags(args: seq<string>)
    requires multiset(args)["--pid"] <= 1 && multiset(args)["--vid"] <= 1
    requires StripToolFlagsSpec(args).Ok?
    ensures var r := StripToolFlagsSpec(args).value;
      "--pid" !in r && "--vid" !in r && StripToolFlagsSpec(r) == Ok(r)
  {
    var mid := StripFlag(args, "--pid").value;
    StripFlagEffect(args, "--pid");
    if "--pid" in args {
      StripFlagMultiset(args, "--pid");
    }
    assert multiset(mid)["--pid"] == 0;
    assert multiset(mid)["--vid"] <= 1 by { StripFlagShrinks(args, "--pid"); }
    var r := StripFlag(mid, "--vid").value;
    StripFlagEffect(mid, "--vid");
    if "--vid" in mid {
      StripFlagMultiset(mid, "--vid");
    }
    assert multiset(r)["--vid"] == 0;
    assert multiset(r)["--pid"] == 0 by { StripFlagShrinks(mid, "--vid"); }
    NoToolFlagsUnchanged(r);
  }
}
