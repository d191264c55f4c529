/**
 * The loop of `main` (cargo-hf2/src/main.rs) over the decoded `cargo build`
 * messages. It keeps a single slot, `target_artifact`: the first
 * `CompilerArtifact` with an executable fills it, a second one panics with
 * "multiple artifacts". The rendered text of every `CompilerMessage` that has
 * one is printed as it arrives. Every other message is ignored.
 */
module ArtifactResolver {
  import opened Wrappers

  /** A decoded `cargo_metadata::Message`, reduced to what the loop reads. */
  datatype Message =
    | CompilerArtifact(executable: Option<string>)
    | CompilerMessage(rendered: Option<string>)
    | Other

  /**
   * The loop's state: the slot and everything printed so far, or the panic
   * on a second executable artifact together with what was printed before it.
   */
  datatype Resolution =
    | Resolving(target: Option<string>, printed: seq<string>)
    | MultipleArtifacts(printed: seq<string>)

  /** The loop body for one message. Once panicked, nothing more happens. */
  function Step(s: Resolution, m: Message): (r: Resolution)
    ensures |s.printed| <= |r.printed| && r.printed[..|s.printed|] == s.printed
    ensures s.Resolving? && r.MultipleArtifacts? ==> s.target.Some?
  {
    match s
    case MultipleArtifacts(_) => s
    case Resolving(target, printed) =>
      match m
      case CompilerArtifact(executable) =>
        if executable.None? then s
        else if target.Some? then MultipleArtifacts(printed)
        else Resolving(executable, printed)
      case CompilerMessage(rendered) =>
        if rendered.Some? then Resolving(target, printed + [rendered.value]) else s
      case Other => s
  }

  /** The state after the loop has seen every message of `msgs`, in order. */
  function Resolve(msgs: seq<Message>): (r: Resolution)
    ensures r.Resolving? && r.target.Some? ==>
      exists i :: 0 <= i < |msgs| && msgs[i] == CompilerArtifact(r.target)
    decreases |msgs|
  {
    if |msgs| == 0 then Resolving(None, [])
    else Step(Resolve(msgs[..|msgs| - 1]), msgs[|msgs| - 1])
  }

  /** The loop as the program runs it, returning where it stopped. */
  method ResolveArtifact(msgs: seq<Message>) returns (r: Resolution)
    ensures r == Resolve(msgs)
  {
    var targetArtifact: Option<string> := None;
    var printed: seq<string> := [];
    for i := 0 to |msgs|
      invariant Resolve(msgs[..i]) == Resolving(targetArtifact, printed)
    {
      assert msgs[..i + 1][..i] == msgs[..i];
      match msgs[i]
      case CompilerArtifact(executable) =>
        if executable.Some? {
          if targetArtifact.Some? {
            AmbiguityIsFinal(msgs, i + 1);
            return MultipleArtifacts(printed);
          } else {
            targetArtifact := executable;
          }
        }
      case CompilerMessage(rendered) =>
        if rendered.Some? {
          printed := printed + [rendered.value];
        }
      case Other =>
    }
    assert msgs[..|msgs|] == msgs;
    return Resolving(targetArtifact, printed);
  }

  /** Once the loop has panicked, later messages change nothing. */
  lemma {:induction false} AmbiguityIsFinal(msgs: seq<Message>, n: nat)
    requires n <= |msgs| && Resolve(msgs[..n]).MultipleArtifacts?
    ensures Resolve(msgs) == Resolve(msgs[..n])
    decreases |msgs| - n
  {
    if n < |msgs| {
      var longer := msgs[..n + 1];
      assert longer[..n] == msgs[..n];
      assert Resolve(longer) == Resolve(msgs[..n]);
      AmbiguityIsFinal(msgs, n + 1);
    } else {
      assert msgs[..n] == msgs;
    }
  }

  // ---------------------------------------------------------------------
  // Reference description: filters over the message sequence
  // ---------------------------------------------------------------------

  predicate IsExecutableArtifact(m: Message) {
    m.CompilerArtifact? && m.executable.Some?
  }

  /** The executable paths of all artifacts that have one, in order. */
  function Executables(msgs: seq<Message>): seq<string>
    decreases |msgs|
  {
    if |msgs| == 0 then []
    else
      var last := msgs[|msgs| - 1];
      Executables(msgs[..|msgs| - 1]) + (if IsExecutableArtifact(last) then [last.executable.value] else [])
  }

  /** The rendered text of all compiler messages that have one, in order. */
  function Rendered(msgs: seq<Message>): seq<string>
    decreases |msgs|
  {
    if |msgs| == 0 then []
    else
      var last := msgs[|msgs| - 1];
      Rendered(msgs[..|msgs| - 1]) + (if last.CompilerMessage? && last.rendered.Some? then [last.rendered.value] else [])
  }

  /**
   * The loop ends in the panic exactly when there are two or more executable
   * artifacts. Otherwise the slot holds the only executable's path unchanged
   * (or nothing when there is none), and the printed output is every
   * rendered diagnostic, in input order.
   */
  lemma {:induction false} ResolveMatchesFilters(msgs: seq<Message>)
    ensures Resolve(msgs).MultipleArtifacts? <==> |Executables(msgs)| >= 2
    ensures |Executables(msgs)| == 0 ==> Resolve(msgs) == Resolving(None, Rendered(msgs))
    ensures |Executables(msgs)| == 1 ==> Resolve(msgs) == Resolving(Some(Executables(msgs)[0]), Rendered(msgs))
    decreases |msgs|
  {
    if |msgs| > 0 {
      ResolveMatchesFilters(msgs[..|msgs| - 1]);
    }
  }

  /**
   * When the second executable artifact is at index `k`, the loop panics
   * there, having printed exactly the diagnostics that came before it,
   * whatever follows.
   */
  lemma PanicPrintsPrefix(msgs: seq<Message>, k: nat)
    requires k < |msgs| && IsExecutableArtifact(msgs[k]) && |Executables(msgs[..k])| == 1
    ensures Resolve(msgs) == MultipleArtifacts(Rendered(msgs[..k]))
  {
    ResolveMatchesFilters(msgs[..k]);
    assert msgs[..k + 1][..k] == msgs[..k];
    AmbiguityIsFinal(msgs, k + 1);
  }

  // ---------------------------------------------------------------------
  // Messages the loop ignores
  // ---------------------------------------------------------------------

  /** Messages that leave both the slot and the output alone. */
  predicate Inert(m: Message) {
    m == Other || m == CompilerArtifact(None) || m == CompilerMessage(None)
  }

  /** Appending the same messages to two prefixes that end in the same state ends in the same state. */
  lemma {:induction false} ResolveAppend(a: seq<Message>, b: seq<Message>, tail: seq<Message>)
    requires Resolve(a) == Resolve(b)
    ensures Resolve(a + tail) == Resolve(b + tail)
    decreases |tail|
  {
    if |tail| == 0 {
      assert a + tail == a && b + tail == b;
    } else {
      var init := tail[..|tail| - 1];
      ResolveAppend(a, b, init);
      assert (a + tail)[..|a + tail| - 1] == a + init;
      assert (b + tail)[..|b + tail| - 1] == b + init;
    }
  }

  /**
   * `Other` messages, artifacts without an executable and compiler messages
   * without rendered text can be dropped from anywhere in the stream without
   * changing the outcome or the output.
   */
  lemma InertMessageIgnored(before: seq<Message>, m: Message, after: seq<Message>)
    requires Inert(m)
    ensures Resolve(before + [m] + after) == Resolve(before + after)
  {
    assert (before + [m])[..|before|] == before;
    ResolveAppend(before + [m], before, after);
  }

  /** The outcome depends on the messages only through the executables and the rendered text. */
  lemma ResolveDeterminedByFilters(a: seq<Message>, b: seq<Message>)
    requires Executables(a) == Executables(b) && Rendered(a) == Rendered(b)
    requires |Executables(a)| <= 1
    ensures Resolve(a) == Resolve(b)
  {
    ResolveMatchesFilters(a);
    ResolveMatchesFilters(b);
  }
}
