# cargo-hf2: artifact and device selection, modelled in Dafny

`cargo hf2` builds a Rust embedded project with `cargo build`, finds the one
executable the build produced, picks a USB HID device in UF2/HF2 bootloader
mode, and hands both to the HF2 flashing routine. This project models the
decision logic of its `main.rs` and proves properties of it:

- `ArgFilter` (arg_filter.dfy): the loop that removes the tool's own
  `--pid`/`--vid` options from the argument vector before it reaches
  `cargo build`.
- `ArtifactResolver` (artifact_resolver.dfy): the single-slot loop over
  build messages that records the executable artifact, panics on a second
  one, and prints rendered diagnostics.
- `ProcessStatus` (process_status.dfy): `exit_with_process_status`, the exit
  code used when the build fails.
- `DeviceSelector` (device_selector.dfy): explicit `--vid`/`--pid` opening
  versus scanning the enumerated devices against the vendor map.
- `HexParse` (hex_parse.dfy): `parse_hex_16`, with the behaviour of Rust's
  `u16::from_str_radix` that it relies on.
- `CargoHf2` (cargo_hf2.dfy): the order in which `main` runs these stages.
- `Wrappers` (wrappers.dfy): `Option` and `Result`; `Ints` (ints.dfy): the
  `u16` type of vendor and product ids.

The loops the program runs (flag stripping, the message loop, the device
scan) are methods with loop invariants, each proved equal to a
specification function. Lemmas then relate each function to an
independent description: filters over the message stream, the positional
value of a digit string, the first qualifying device.

Two behaviours of the code differ from what a user of the tool might expect;
the model follows the code:
- One might expect every `--pid`/`--vid` pair to be removed, and a flag
  without a value to be rejected. The code removes only the first
  occurrence of each flag, together with the token after it. A pass panics
  in `Vec::remove` exactly when the first occurrence of its flag, in the
  vector that pass sees, is that vector's last element
  (`ArgFilter.StripFlagEffect`). That is not the same as a flag being last
  in the input: `[--pid, 1, --pid]` forwards `[--pid]`
  (`ArgFilter.TrailingRepeatForwarded`), and `[--vid, --pid, 5]` panics
  because the `--pid` pass leaves `--vid` last
  (`ArgFilter.PanicAfterEarlierPass`). So stripping twice gives the same result
  when each flag occurs at most once
  (`ArgFilter.StripIdempotentForSingleFlags`), but not always otherwise:
  `[--pid, 1, --pid, 2]` strips to `[--pid, 2]`, which strips further to
  `[]` (`ArgFilter.RepeatedFlagSurvives`).
- One might expect a build without an executable to be reported before any
  device work. The code looks for the device first and unwraps the empty
  slot afterwards, so a successful build with no executable and no device
  panics on the device (`CargoHf2.DeviceSearchPrecedesArtifactCheck`).
- The option parser accepts `--pid=0x1234`, but the strip loop compares
  whole arguments with `--pid` and `--vid`, so that spelling is passed on
  to `cargo build` (`ArgFilter.EqualsSpellingForwarded`).

## Model

| member | source | states |
|---|---|---|
| `ArgFilter.Position` | cargo-hf2/src/main.rs:24 | the index returned holds the flag and no earlier index does; no index exactly when the flag is absent |
| `ArgFilter.StripFlag` | cargo-hf2/src/main.rs:24-26 | one pass of the loop body: a missing flag changes nothing, a panic needs the flag to be present, and a successful pass over a present flag removes two elements; its full effect is `ArgFilter.StripFlagEffect` |
| `ArgFilter.StripFlags` | cargo-hf2/src/main.rs:22-28 | the `for flag in flags` loop, one pass per flag in order, stopping at the first panic; what it forwards is never longer than its input; for the tool's flag list it is the two-pass function (`ArgFilter.ToolFlagsLoop`) |
| `ArgFilter.StripToolFlagsSpec` | cargo-hf2/src/main.rs:22-28 | the `--pid` pass then the `--vid` pass; what is forwarded is never longer than the input and shorter by an even count; related to the loop by `ArgFilter.StripToolFlags` and `ArgFilter.ToolFlagsLoop` |
| `ArgFilter.Remove` | cargo-hf2/src/main.rs:25-26 | `Vec::remove` panics exactly when the index is not below the length; otherwise the result is one shorter, with the elements before the index kept and those after it shifted down by one |
| `ArgFilter.StripToolFlags` | cargo-hf2/src/main.rs:22-28 | the in-place loop over `--pid` then `--vid` yields exactly what the two-pass specification yields, including the panic |
| `ArgFilter.StripFlagEffect` | cargo-hf2/src/main.rs:24-26 | one pass removes the first occurrence of the flag and the element after it, keeping all else in order; it panics exactly when that occurrence is the last argument; a missing flag changes nothing |
| `ArgFilter.StripFlagMultiset` | cargo-hf2/src/main.rs:24-26 | when the flag's first occurrence is not last, the pass succeeds and loses exactly that flag and the token after it (as a multiset), so a later occurrence that is not the token right after the first survives |
| `ArgFilter.NoToolFlagsUnchanged` | cargo-hf2/src/main.rs:22-28 | arguments with neither flag are forwarded unchanged |
| `ArgFilter.ToolFlagsLoop` | cargo-hf2/src/main.rs:22-28 | the loop over the flag list `[--pid, --vid]` is the `--pid` pass followed by the `--vid` pass on what remains, stopping at a panic |
| `ArgFilter.StripExample` | cargo-hf2/src/main.rs:22-28 | `[--release, --vid, 0x1234, --bin, foo]` becomes `[--release, --bin, foo]` |
| `ArgFilter.RepeatedFlagSurvives` | cargo-hf2/src/main.rs:24-26 | `[--pid, 1, --pid, 2]` becomes `[--pid, 2]`, and stripping that again gives `[]` |
| `ArgFilter.TrailingRepeatForwarded` | cargo-hf2/src/main.rs:24-26 | `[--pid, 1, --pid]` forwards `[--pid]`: a flag last in the input does not panic when an earlier occurrence is removed first |
| `ArgFilter.PanicAfterEarlierPass` | cargo-hf2/src/main.rs:22-28 | `[--vid, --pid, 5]` panics with index 0 and length 0: the `--pid` pass leaves `--vid` as the last element for the `--vid` pass |
| `ArgFilter.EqualsSpellingForwarded` | cargo-hf2/src/main.rs:24 | an argument `--pid=VALUE` is not equal to a tool flag, so it is forwarded unchanged |
| `ArgFilter.TrailingFlagPanics` | cargo-hf2/src/main.rs:25-26 | a tool flag in the last position, with no earlier tool flag, makes the second `remove` panic with index = length |
| `ArgFilter.StripIdempotentForSingleFlags` | cargo-hf2/src/main.rs:22-28 | when each flag occurs at most once, the result holds neither flag and stripping it again changes nothing |
| `ArtifactResolver.Step` | cargo-hf2/src/main.rs:52-70 | one message only appends to what is printed, and the "multiple artifacts" panic fires only when the slot is already filled |
| `ArtifactResolver.Resolve` | cargo-hf2/src/main.rs:48-71 | a filled slot holds the path of an executable artifact message of the input; the complete characterisation is `ArtifactResolver.ResolveMatchesFilters` |
| `ArtifactResolver.ResolveArtifact` | cargo-hf2/src/main.rs:48-71 | the message loop with its single slot ends in exactly the state the step-by-step specification gives, stopping at the "multiple artifacts" panic |
| `ArtifactResolver.AmbiguityIsFinal` | cargo-hf2/src/main.rs:54-57 | after the panic on a second executable artifact, no later message changes the outcome |
| `ArtifactResolver.ResolveMatchesFilters` | cargo-hf2/src/main.rs:48-71 | the loop panics exactly when there are two or more executable artifacts; otherwise the slot is empty with none and holds the only executable's path unchanged with one; the printed output is every rendered diagnostic, in input order |
| `ArtifactResolver.PanicPrintsPrefix` | cargo-hf2/src/main.rs:54-66 | when the second executable artifact is at index k, the panic happens there, after printing exactly the diagnostics before k, whatever else is interleaved or follows |
| `ArtifactResolver.InertMessageIgnored` | cargo-hf2/src/main.rs:52-70 | `Other` messages, artifacts without an executable and compiler messages without rendered text can be removed anywhere without changing the slot, the panic or the output |
| `ArtifactResolver.ResolveDeterminedByFilters` | cargo-hf2/src/main.rs:48-71 | two streams with the same executables (at most one) and the same rendered text resolve identically |
| `ProcessStatus.Success` | cargo-hf2/src/main.rs:73 | `ExitStatus::success`: a successful status would map to exit code 0 on both platforms; together with `ProcessStatus.FailureNeverExitsZero`, exit code 0 and success coincide for well-formed statuses |
| `ProcessStatus.ExitCodeFor` | cargo-hf2/src/main.rs:139-150 | exit with the child's code if it has one; else, on Unix, with its signal number; else with 1 |
| `ProcessStatus.FailureNeverExitsZero` | cargo-hf2/src/main.rs:73-75 | a failed build (signals at least 1) never makes the tool exit with 0, on either platform |
| `ProcessStatus.SignalOnlyOnUnix` | cargo-hf2/src/main.rs:139-150 | without a code, the signal is used on Unix and 1 elsewhere; with a code both platforms agree |
| `DeviceSelector.FirstQualifying` | cargo-hf2/src/main.rs:88-101 | the index returned is a device whose vid is a key of the vendor map, whose pid is in that key's set, and which opens, with no such device before it; none means no device qualifies |
| `DeviceSelector.ScanForDevice` | cargo-hf2/src/main.rs:88-101 | the enumeration loop with its `break` returns exactly the first qualifying device |
| `DeviceSelector.OpenById` | cargo-hf2/src/main.rs:80-81 | explicit opening yields a device with exactly the requested vid/pid that opens and is the first with that pair; failure means every device with the pair is preceded by, or is, one that does not open |
| `DeviceSelector.SelectDevice` | cargo-hf2/src/main.rs:79-103 | explicit opening when both ids are given, the scan otherwise, `DeviceNotFound` when neither yields a device; a selected device is one of the enumerated devices and opens; explicit mode is `DeviceSelector.OpenById` (the first device with the pair, failing if that one does not open), characterised by `DeviceSelector.ExplicitIgnoresVendorMap`; scan mode is characterised by `DeviceSelector.ScanSelectsFirstQualifying` |
| `DeviceSelector.ExplicitIgnoresVendorMap` | cargo-hf2/src/main.rs:79-81 | with both ids given, selection is the same under any vendor map, returns only a device with that exact pair that opens, fails when no device has the pair, and otherwise takes the first device with the pair, failing if that one does not open |
| `DeviceSelector.ScanSelectsFirstQualifying` | cargo-hf2/src/main.rs:82-102 | with either id missing, selection fails exactly when no device qualifies, and otherwise returns the first qualifying device in enumeration order |
| `DeviceSelector.ScanStopsAtFirstMatch` | cargo-hf2/src/main.rs:95-97 | replacing every device after the chosen one does not change the choice |
| `DeviceSelector.UnopenableDeviceSkipped` | cargo-hf2/src/main.rs:93-98 | a known device that fails to open is skipped as if it were absent |
| `DeviceSelector.ScanExample` | cargo-hf2/src/main.rs:88-102 | with map {0x1234: {0x5678, 0x9abc}} and devices (0x1234, 0x0000) then (0x1234, 0x5678), only the second opening, the scan returns the second |
| `DeviceSelector.ExplicitExample` | cargo-hf2/src/main.rs:79-81 | explicit vid 0x2e8a, pid 0x000c with no such device fails, whatever the vendor map |
| `HexParse.DigitValue` | cargo-hf2/src/main.rs:154-156 | a character is a digit exactly when it is 0-9, or a-f/A-F in base 16, and its value is below the radix |
| `HexParse.UpperCaseDigitsAsLowerCase` | cargo-hf2/src/main.rs:154-156 | in base 16 each of `A`-`F` is a digit with the value of its lower-case letter |
| `HexParse.Accumulate` | cargo-hf2/src/main.rs:154-156 | the digit loop only succeeds with values up to 65535 and never reports `Empty` |
| `HexParse.AccumulateIsValue` | cargo-hf2/src/main.rs:154-156 | the digit loop succeeds exactly on all-digit strings whose positional value fits in 16 bits, and returns that value |
| `HexParse.FromStrRadixIsValue` | cargo-hf2/src/main.rs:154-156 | `from_str_radix` succeeds exactly when, after an optional `+`, the input is a non-empty digit string whose value fits in 16 bits, and returns that value |
| `HexParse.FromStrRadix` | cargo-hf2/src/main.rs:154-156 | `u16::from_str_radix` reports `Empty` exactly for the empty string; its full characterisation is `HexParse.FromStrRadixIsValue` |
| `HexParse.ParseHex16` | cargo-hf2/src/main.rs:152-158 | `parse_hex_16` reports `Empty` exactly for `""` and `"0x"`; its value is given by `HexParse.ParseHex16IsValue` and its inverse by `HexParse.ParseHex16RoundTrip` |
| `HexParse.ParseHex16IsValue` | cargo-hf2/src/main.rs:152-158 | with a lower-case `0x` prefix the rest must spell a 16-bit number in base 16, otherwise the whole input in base 10; the result is the number spelled |
| `HexParse.ParseHex16RoundTrip` | cargo-hf2/src/main.rs:152-158 | every u16 written as `0x` plus lower-case hex, or in decimal, parses back to itself |
| `HexParse.UpperCasePrefixRejected` | cargo-hf2/src/main.rs:153 | `0X` does not select base 16: any input starting with it is an invalid digit |
| `HexParse.AccumulateFailsAt` | cargo-hf2/src/main.rs:154-156 | an invalid character after a run of digits that fits stops the loop with `InvalidDigit` |
| `HexParse.AccumulateSnoc` | cargo-hf2/src/main.rs:154-156 | reading one more valid digit multiplies the value read so far by the radix and adds the digit, while the result fits |
| `HexParse.HexSpelling` | cargo-hf2/src/main.rs:152-158 | `0x2E8A` gives 11914 |
| `HexParse.DecimalSpelling` | cargo-hf2/src/main.rs:152-158 | `11914` gives 11914, the same id as `0x2E8A` |
| `HexParse.HexOverflow` | cargo-hf2/src/main.rs:152-158 | `0x1FFFF` fails with overflow |
| `HexParse.DecimalOverflow` | cargo-hf2/src/main.rs:152-158 | `65536` fails with overflow |
| `HexParse.NoDigitsRejected` | cargo-hf2/src/main.rs:152-158 | `0x` alone and the empty string fail with `Empty` |
| `CargoHf2.Run` | cargo-hf2/src/main.rs:22-116 | `main` as a function of its inputs: a flash job names an enumerated device that opens; the stage order is given by `CargoHf2.FlashRequiresUniqueArtifact`, `CargoHf2.FailedBuildSkipsDevices`, `CargoHf2.AmbiguityBeforeExitStatus` and `CargoHf2.DeviceSearchPrecedesArtifactCheck` |
| `CargoHf2.RunMain` | cargo-hf2/src/main.rs:22-116 | `main`, run through the loops of each stage, ends exactly as the stage-by-stage specification says |
| `CargoHf2.FlashRequiresUniqueArtifact` | cargo-hf2/src/main.rs:48-116 | a run reaches flashing only after a successful build with exactly one executable artifact; it flashes that path unchanged to the selected device, having printed every rendered diagnostic |
| `CargoHf2.FailedBuildSkipsDevices` | cargo-hf2/src/main.rs:73-77 | a failed, unambiguous build exits with the mirrored status, even when an artifact was found, and the outcome does not depend on the ids, devices or vendor map |
| `CargoHf2.AmbiguityBeforeExitStatus` | cargo-hf2/src/main.rs:50-75 | two executable artifacts panic before the exit status is looked at |
| `CargoHf2.DeviceSearchPrecedesArtifactCheck` | cargo-hf2/src/main.rs:79-116 | a successful build with no executable panics on the missing device if selection fails, and on the empty artifact slot only once a device was found |
| `CargoHf2.CargoArgs` | cargo-hf2/src/main.rs:34-38 | the command line has three more elements than the forwarded arguments, starts with `build` and holds the forwarded arguments unchanged right after it, and ends with `--message-format json-diagnostic-rendered-ansi` |
| `CargoHf2.ForwardedExample` | cargo-hf2/src/main.rs:22-38 | `--release --vid 0x1234 --bin foo` builds with `build --release --bin foo --message-format json-diagnostic-rendered-ansi` |

## Left out

- Spawning `cargo build` and waiting for it (main.rs:34-43): the build is a function parameter from its argument list to the decoded messages and exit status. A spawn failure is not modelled.
- Decoding the JSON message stream with `cargo_metadata::Message::parse_stream`, and the `unwrap` on a decode error (main.rs:46, 51): messages come in already decoded. An artifact is reduced to its optional executable path, and the slot holds that path.
- `HidApi::new` and its failure (main.rs:77), and the manufacturer and product strings (main.rs:105-110): USB I/O. Each device carries an `opens` flag instead.
- `DeviceSelector.OpenById`: `HidApi::open(vid, pid)` is code in the hidapi library, which is not part of this model. It is modelled as opening the first enumerated device with that pair.
- `hf2::utils::vendor_map`, `elf_to_bin`, `hf2::bin_info`, `flash_bin` and their failures (main.rs:90, 120-128): code in the hf2 crate, which is not part of this model. The vendor map is a parameter, and a run ends with the `FlashJob` handed to flashing.
- The coloured status lines ("Searching", "Trying", "Flashing", "Finished") and the elapsed-time report (main.rs:83-86, 105-110, 118, 122-136): the printed output holds only the rendered diagnostics. Timing is wall-clock and floating point.
- The StructOpt option definitions (main.rs:160-186): only `parse_hex_16`, the parser they use for `--vid`/`--pid`, is modelled. `CargoHf2.Run` takes the two ids already parsed.
- The StructOpt parse of the same arguments, which runs before the strip loop (main.rs:16), and its own rejections (a repeated option, an option without a value): not modelled. The strip loop is modelled on any argument vector, so `ArgFilter` shows its `Vec::remove` panic as written.
- `ProcessStatus.ExitCodeFor`: returns the whole code. The operating system's truncation of the value given to `std::process::exit` (to 8 bits on Unix) is not modelled.
- `HexParse.FromStrRadix`: follows current Rust, where a lone `+` or `-` is `InvalidDigit`; older Rust releases reported `Empty` for a lone `+`. Input is taken as characters, not UTF-8 bytes. Every non-ASCII character is an invalid digit in either view, so the outcome is the same.
