/**
 * The sequence `main` (cargo-hf2/src/main.rs) runs: strip the tool's flags,
 * run `cargo build` with the rest, resolve the artifact while printing
 * diagnostics, leave with the build's status if it failed, pick the device,
 * and only then take the path out of the artifact slot. Building, USB access
 * and flashing are not modelled: the build is a function from its argument
 * list to the decoded messages and exit status, the USB bus is a device list
 * and the flash step is the job handed to it.
 */
module CargoHf2 {
  import opened Wrappers
  import opened Ints
  import opened ProcessStatus
  import opened ArgFilter
  import opened ArtifactResolver
  import opened DeviceSelector

  /** What `cargo build` yields: its decoded message stream and its exit status. */
  datatype BuildOutput = BuildOutput(messages: seq<Message>, status: ExitStatus)

  /** Everything `main` takes from the outside world. */
  datatype Inputs = Inputs(
    args: seq<string>,            // the arguments after `cargo hf2`
    vid: Option<u16>,             // `--vid`, already parsed by `parse_hex_16`
    pid: Option<u16>,             // `--pid`, already parsed by `parse_hex_16`
    platform: Platform,
    devices: seq<DeviceInfo>,
    vendor: VendorMap)

  /** How a run ends short of flashing. */
  datatype Halt =
    | ArgRemovePanic(panic: RemovePanic)  // a pass's flag was, at its first occurrence, last in the vector that pass saw
    | MultipleArtifactsPanic               // "multiple artifacts"
    | BuildFailed(code: int)               // `exit_with_process_status`
    | DeviceNotFoundPanic                  // no device opened
    | NoArtifactPanic                      // `target_artifact.unwrap()` on `None`

  /** The executable and the device handed to the flashing step. */
  datatype FlashJob = FlashJob(path: string, device: nat)

  /** What a run prints (the rendered diagnostics) and how it ends. */
  datatype Outcome = Outcome(printed: seq<string>, end: Result<FlashJob, Halt>)

  /** The command line `cargo` is started with. */
  function CargoArgs(forwarded: seq<string>): (r: seq<string>)
    ensures |r| == |forwarded| + 3 && r[0] == "build"
    ensures r[1..|forwarded| + 1] == forwarded
    ensures r[|forwarded| + 1..] == ["--message-format", "json-diagnostic-rendered-ansi"]
  {
    ["build"] + forwarded + ["--message-format", "json-diagnostic-rendered-ansi"]
  }

  /** `main`, step by step, as a function of its inputs. */
  function Run(inputs: Inputs, cargo: seq<string> -> BuildOutput): (outcome: Outcome)
    ensures outcome.end.Ok? ==>
      outcome.end.value.device < |inputs.devices| && inputs.devices[outcome.end.value.device].opens
  {
    match StripToolFlagsSpec(inputs.args)
    case Err(p) => Outcome([], Err(ArgRemovePanic(p)))
    case Ok(forwarded) =>
      var build := cargo(CargoArgs(forwarded));
      match Resolve(build.messages)
      case MultipleArtifacts(printed) => Outcome(printed, Err(MultipleArtifactsPanic))
      case Resolving(target, printed) =>
        if !Success(build.status) then
          Outcome(printed, Err(BuildFailed(ExitCodeFor(build.status, inputs.platform))))
        else
          match SelectDevice(inputs.vid, inputs.pid, inputs.devices, inputs.vendor)
          case Err(_) => Outcome(printed, Err(DeviceNotFoundPanic))
          case Ok(d) =>
            if target.None? then Outcome(printed, Err(NoArtifactPanic))
            else Outcome(printed, Ok(FlashJob(target.value, d)))
  }

  /** `main` as the program runs it, through the loops of each stage. */
  method RunMain(inputs: Inputs, cargo: seq<string> -> BuildOutput) returns (outcome: Outcome)
    ensures outcome == Run(inputs, cargo)
  {
    var stripped := StripToolFlags(inputs.args);
    if stripped.Err? {
      return Outcome([], Err(ArgRemovePanic(stripped.error)));
    }
    var build := cargo(CargoArgs(stripped.value));
    var resolution := ResolveArtifact(build.messages);
    if resolution.MultipleArtifacts? {
      return Outcome(resolution.printed, Err(MultipleArtifactsPanic));
    }
    var printed := resolution.printed;
    if !Success(build.status) {
      return Outcome(printed, Err(BuildFailed(ExitCodeFor(build.status, inputs.platform))));
    }
    var device: Option<nat>;
    if inputs.vid.Some? && inputs.pid.Some? {
      device := OpenById(inputs.vid.value, inputs.pid.value, inputs.devices);
    } else {
      device := ScanForDevice(inputs.devices, inputs.vendor);
    }
    if device.None? {
      return Outcome(printed, Err(DeviceNotFoundPanic));
    }
    if resolution.target.None? {
      return Outcome(printed, Err(NoArtifactPanic));
    }
    return Outcome(printed, Ok(FlashJob(resolution.target.value, device.value)));
  }

  // ---------------------------------------------------------------------
  // Properties of a whole run
  // ---------------------------------------------------------------------

  /** The build run of `inputs`, when flag stripping lets the run get that far. */
  function BuildOf(inputs: Inputs, cargo: seq<string> -> BuildOutput): BuildOutput
    requires StripToolFlagsSpec(inputs.args).Ok?
  {
    cargo(CargoArgs(StripToolFlagsSpec(inputs.args).value))
  }

  /**
   * A run reaches the flashing step only with exactly one executable
   * artifact, a successful build and a device; it flashes that artifact's
   * path unchanged, to the device the selector chose, after printing every
   * rendered diagnostic.
   */
  lemma FlashRequiresUniqueArtifact(inputs: Inputs, cargo: seq<string> -> BuildOutput)
    requires Run(inputs, cargo).end.Ok?
    ensures StripToolFlagsSpec(inputs.args).Ok?
    ensures var build := BuildOf(inputs, cargo);
      && Success(build.status)
      && |Executables(build.messages)| == 1
      && Run(inputs, cargo).end.value.path == Executables(build.messages)[0]
      && Run(inputs, cargo).printed == Rendered(build.messages)
      && SelectDevice(inputs.vid, inputs.pid, inputs.devices, inputs.vendor) == Ok(Run(inputs, cargo).end.value.device)
  {
    ResolveMatchesFilters(BuildOf(inputs, cargo).messages);
  }

  /**
   * A failed build ends the run with the build's exit code before any
   * device is touched, even when an artifact was found: the outcome is the
   * same whatever devices, vendor map or ids are given.
   */
  lemma FailedBuildSkipsDevices(inputs: Inputs, other: Inputs, cargo: seq<string> -> BuildOutput)
    requires StripToolFlagsSpec(inputs.args).Ok?
    requires var build := BuildOf(inputs, cargo);
      !Success(build.status) && |Executables(build.messages)| <= 1
    requires other == inputs.(vid := other.vid, pid := other.pid, devices := other.devices, vendor := other.vendor)
    ensures var build := BuildOf(inputs, cargo);
      Run(inputs, cargo) == Outcome(Rendered(build.messages), Err(BuildFailed(ExitCodeFor(build.status, inputs.platform))))
    ensures Run(other, cargo) == Run(inputs, cargo)
  {
    ResolveMatchesFilters(BuildOf(inputs, cargo).messages);
  }

  /** Two executable artifacts stop the run even when the build itself failed. */
  lemma AmbiguityBeforeExitStatus(inputs: Inputs, cargo: seq<string> -> BuildOutput)
    requires StripToolFlagsSpec(inputs.args).Ok?
    requires |Executables(BuildOf(inputs, cargo).messages)| >= 2
    ensures Run(inputs, cargo).end == Err(MultipleArtifactsPanic)
  {
    ResolveMatchesFilters(BuildOf(inputs, cargo).messages);
  }

  /**
   * The device is looked for before the artifact slot is unwrapped: a
   * successful build with no executable panics on the missing device when
   * there is none, and on the missing artifact only when a device was found.
   */
  lemma DeviceSearchPrecedesArtifactCheck(inputs: Inputs, cargo: seq<string> -> BuildOutput)
    requires StripToolFlagsSpec(inputs.args).Ok?
    requires var build := BuildOf(inputs, cargo);
      Success(build.status) && |Executables(build.messages)| == 0
    ensures SelectDevice(inputs.vid, inputs.pid, inputs.devices, inputs.vendor).Err? ==>
      Run(inputs, cargo).end == Err(DeviceNotFoundPanic)
    ensures SelectDevice(inputs.vid, inputs.pid, inputs.devices, inputs.vendor).Ok? ==>
      Run(inputs, cargo).end == Err(NoArtifactPanic)
  {
    ResolveMatchesFilters(BuildOf(inputs, cargo).messages);
  }

  /**
   * The example invocation `cargo hf2 --release --vid 0x1234 --bin foo`
   * builds with `--release --bin foo`.
   */
  lemma ForwardedExample(inputs: Inputs)
    requires inputs.args == ["--release", "--vid", "0x1234", "--bin", "foo"]
    ensures StripToolFlagsSpec(inputs.args).Ok?
    ensures CargoArgs(StripToolFlagsSpec(inputs.args).value) ==
      ["build", "--release", "--bin", "foo", "--message-format", "json-diagnostic-rendered-ansi"]
  {
    StripExample();
  }
}
