# rtsp2img in Dafny

rtsp2img watches a fleet of IP cameras over RTSP. For each camera it keeps
one session open. From the H.264 stream it picks out keyframes (IDR slices).
Early in a session, while the last capture's timestamp is still below the
configured interval, every keyframe is taken. After that, a keyframe is
taken only once it is a full interval past the last one. Each chosen
keyframe goes behind the stream's SPS and PPS in an Annex B fragment, and
ffmpeg turns that fragment into a still image named after the camera's
serial number.

The model covers the three core packages:

- `Rtsp` (`rtsp.dfy`) models `rtsp/rtsp.go`:
  - the `RTSP` session as a class whose cursor `pts`, cached SPS/PPS and
    issued render requests change in place;
  - the choice of the H.264 track;
  - the `OnPacketRTP` callback, with its keyframe test and throttle;
  - `write`: the fragment it builds and the output file name it derives
    from the template.

  The loop over the NAL units of an access unit is a method proved against
  the function `Scan`, and the properties of the throttle are lemmas about
  `Scan`. The fragment has a partner: splitting at start codes gives back
  SPS, PPS and NAL unit. The file name has one too: the path split is
  unique. For substitution, a base without "sn" is kept (`ReplaceUnchangedIff`)
  and the leftmost "sn" is replaced before substitution continues
  (`ReplaceLeftmost`), which together fix the result for any number of
  placeholders.
- `Flag` (`flag.dfy`) models `flag/flag.go`. `parse` is the command-line
  scan loop. `Parse` is the decision between usage, help, version and
  continuing with a configuration file. Its process exits are returned as
  values.
- `Config` (`config.dfy`) models `config/config.go`: the defaults applied to
  a decoded configuration.
- `Wrappers` (`wrappers.dfy`) holds `Option` and `Result`.
- `GoInt` (`goint.dfy`) holds Go's 64-bit integers and their wrap-around.

Go's `int` and `time.Duration` are 64-bit. The throttle's subtraction and
the interval's multiplication are modelled with two's-complement
wrap-around (`Wrap64`). The throttle lemmas are stated under hypotheses that
exclude overflow.

The throttle is the code's condition at rtsp/rtsp.go:150: "gap ≥ interval,
or cursor < interval". Take an interval of 3 s and keyframes at 0, 1, 2, 3.2
and 4 s. Reading the condition as a gap test alone would predict captures at
0 and 3.2 s only. The second disjunct keeps the cursor below 3 s through the
first three, so 0, 1, 2 and 3.2 s are all captured, and only 4 s is dropped
(`ThreeSecondScenario`). Once the cursor has reached a non-negative interval
it stays there, short of int64 overflow (`ThrottleCursorStaysAbove`). Timestamps that
jump back then stop captures until they are a full interval past the cursor
(`ThrottleClosedWithinInterval`). They do not re-open the throttle.

## Model

| member | source | states |
|---|---|---|
| Config.WithDefaults | config/config.go:25-31 | a zero camera count becomes 3 and an empty save path "./camera/camera-sn.png"; non-zero and non-empty values, and the camera list, are kept |
| Config.New | config/config.go:14-34 | a decoding error is returned unchanged; a decoded configuration comes back with exactly the defaults of WithDefaults applied |
| Config.WithDefaultsIdempotent | config/config.go:25-31 | applying the defaults twice is the same as once |
| Config.WithDefaultsFixedPoints | config/config.go:25-31 | a configuration is left unchanged if and only if its camera count is non-zero and its save path non-empty |
| Flag.IsConfigValueUnique | flag/flag.go:23-27 | the configuration value the argument scan settles on is unique: it is the argument after the last "-c" that has a follower, or "" when there is none |
| Flag.ParseArgs | flag/flag.go:7-35 | fewer than two arguments gives only Done; Help iff the first argument is "-h" or "-?"; Version iff it is "-v"; Config is the argument after the last "-c" that has a follower (or ""); Damon iff some argument is "-d" |
| Flag.Decide | flag/flag.go:39-59 | Done exits 1 with usage, then Help exits 0, then Version exits 0, then an empty config exits 1 with usage; otherwise the config path is returned, and it is non-empty |
| Flag.Parse | flag/flag.go:37-60 | in terms of the raw arguments: too few give usage and code 1; "-h"/"-?" give help and "-v" version with code 0; it proceeds iff the first argument is none of those and the last usable "-c" is followed by a non-empty value, which is then returned; with any other first argument, not proceeding means usage and code 1 |
| GoInt.Wrap64 | rtsp/rtsp.go:150 | the int64 result is congruent to the exact one modulo 2^64 and equals it when it fits |
| Rtsp.IntervalNs | rtsp/rtsp.go:150 | the interval is duration·10^9 ns when that fits in int64, and non-negative for durations from 0 up to 9223372036 s |
| Rtsp.NalType | rtsp/rtsp.go:148 | the NAL unit type is the first byte modulo 32, in [0, 32) |
| Rtsp.IsKeyframe | rtsp/rtsp.go:148-149 | a unit is a keyframe iff it is non-empty and its first byte modulo 32 is 5 (IDR slice); ScanWritesOnlyKeyframes and ScanSkipsNonKeyframes state what the loop does with it |
| Rtsp.ShouldCapture | rtsp/rtsp.go:150 | when pts − cursor fits in int64, a keyframe passes iff pts − cursor reaches the wrapped interval or the cursor is below it; ThrottleExact, ThrottleOpenBelowInterval, ThrottleClosedWithinInterval and ThrottleCursorStaysAbove state its consequences |
| Rtsp.ThrottleExact | rtsp/rtsp.go:150 | without overflow, a keyframe passes iff pts − cursor ≥ duration·10^9 or cursor < duration·10^9 |
| Rtsp.ThrottleOpenBelowInterval | rtsp/rtsp.go:150 | while the cursor is below the interval every keyframe passes, whatever its timestamp |
| Rtsp.ThrottleClosedWithinInterval | rtsp/rtsp.go:150 | once the cursor has reached the interval, a keyframe less than the interval after it, or at or before it, is dropped |
| Rtsp.ThrottleCursorStaysAbove | rtsp/rtsp.go:150-152 | once the cursor has reached a non-negative interval, a keyframe passes only at least an interval after it, so the new cursor stays at or above the interval |
| Rtsp.Scan | rtsp/rtsp.go:147-155 | after a unit's NAL units the cursor is the unit's timestamp if anything was written and the old cursor otherwise |
| Rtsp.ScanWritesOnlyKeyframes | rtsp/rtsp.go:147-151 | only keyframes of the unit are written, each one of the unit's NAL units, never more than the unit holds |
| Rtsp.ScanSkipsNonKeyframes | rtsp/rtsp.go:148-149 | a unit with no IDR slice writes nothing and leaves the cursor where it was |
| Rtsp.ScanBelowIntervalWritesAll | rtsp/rtsp.go:150-152 | while cursor and timestamp are below the interval, exactly the unit's keyframes are written, in order |
| Rtsp.ScanAtMostOnceAboveInterval | rtsp/rtsp.go:150-153 | once the timestamp has reached a positive interval, a unit writes at most one keyframe, because the first capture closes the throttle |
| Rtsp.ScanSingle | rtsp/rtsp.go:147-153 | a single-unit access unit is written and moves the cursor exactly when it is a keyframe the throttle lets through |
| Rtsp.ThreeSecondScenario | rtsp/rtsp.go:147-155 | interval 3 s and keyframes at 0, 1, 2, 3.2 and 4 s: the first four are captured with the cursor following them; 4 s is dropped and the cursor stays at 3.2 s |
| Rtsp.Fragment | rtsp/rtsp.go:167-173 | the fragment is 12 bytes longer than SPS, PPS and NAL unit together, starts with a start code and ends with the NAL unit; FragmentLayout and FragmentSplitsBack state the rest |
| Rtsp.FragmentLayout | rtsp/rtsp.go:167-173 | the fragment is 12 bytes longer than its parts: a start code, then the SPS, a start code, the PPS, a start code and the NAL unit, at the stated offsets |
| Rtsp.FragmentSplitsBack | rtsp/rtsp.go:167-173 | splitting the fragment at its start codes gives back an empty prefix, the SPS, the PPS and the NAL unit when none of them contains a start code |
| Rtsp.SplitPath | rtsp/rtsp.go:181 | directory and base name concatenate to the path; the base has no '/'; the directory is empty or ends in '/' |
| Rtsp.SplitPathUnique | rtsp/rtsp.go:181 | any directory/base pair with those properties is the split |
| Rtsp.ReplacePlaceholder | rtsp/rtsp.go:181 | strings.ReplaceAll(base, "sn", serial): the result has no character that is in neither the base nor the serial; ReplaceLength, ReplaceUnchangedIff, ReplaceKeepsNoSlash and ReplaceLeftmost characterise it |
| Rtsp.ReplaceLength | rtsp/rtsp.go:181 | substitution never shortens the name for serials of length ≥ 2 and never lengthens it for serials of length ≤ 2 |
| Rtsp.ReplaceUnchangedIff | rtsp/rtsp.go:181 | substitution leaves the base unchanged iff it holds no "sn" or the serial is "sn" itself |
| Rtsp.ReplaceKeepsNoSlash | rtsp/rtsp.go:181 | a base and serial without '/' give a substituted name without '/' |
| Rtsp.ReplaceLeftmost | rtsp/rtsp.go:181 | the leftmost "sn" is replaced by the serial, the text before it is kept, and substitution continues on the rest, so with ReplaceUnchangedIff every "sn" is replaced, left to right and without overlap |
| Rtsp.ReplaceSingle | rtsp/rtsp.go:181 | a single "sn" between parts holding none is replaced by the serial and the parts are kept, also when the first part ends in 's' |
| Rtsp.ReplaceTwice | rtsp/rtsp.go:181 | a base with two placeholders gets the serial in both places |
| Rtsp.OutputPath | rtsp/rtsp.go:181 | the image path starts with the template's directory and holds only characters of the template and the serial; the OutputPath lemmas below pin it down |
| Rtsp.OutputPathKeepsDirectory | rtsp/rtsp.go:181 | for a serial without '/', the image lands in the template's directory under the substituted base name |
| Rtsp.OutputPathWithoutPlaceholder | rtsp/rtsp.go:181 | a template whose base name holds no "sn" is used unchanged |
| Rtsp.OutputPathSinglePlaceholder | rtsp/rtsp.go:181 | a template dir/p·sn·q with one placeholder gives dir/p·serial·q |
| Rtsp.OutputPathScenario | rtsp/rtsp.go:181 | template "./out/cam-sn.jpg" gives "./out/cam-<serial>.jpg" |
| Rtsp.FirstH264 | rtsp/rtsp.go:106-107 | the lowest-index H.264 track, or None exactly when there is no H.264 track |
| Rtsp.Session.constructor | rtsp/rtsp.go:36-46 | a new session keeps its serial, URL, template and interval, with cursor 0, no SPS/PPS and no render requests |
| Rtsp.Session.SelectTrack | rtsp/rtsp.go:104-125 | with no H.264 track the error is "h264 track not found"; the first H.264 track's extraction error is returned; otherwise its index is returned and its SPS and PPS cached; on error nothing is cached |
| Rtsp.Session.Write | rtsp/rtsp.go:166-187 | one render request is issued: the fragment start code·SPS·start code·PPS·start code·NAL unit and the templated output path; its outcome is returned |
| Rtsp.Session.Consider | rtsp/rtsp.go:148-153 | a NAL unit is written iff it is an IDR slice and the throttle passes at the current cursor; the cursor then becomes the unit's timestamp, whatever the renderer answers; otherwise nothing changes |
| Rtsp.Session.ScanUnit | rtsp/rtsp.go:147-155 | the new cursor and the requests issued are those Scan gives for the unit's NAL units |
| Rtsp.Session.OnPacketRTP | rtsp/rtsp.go:128-156 | a packet of another track, or one that does not decode, changes nothing; otherwise cursor and requests are those Scan gives |

## Left out

- The RTSP client is not part of this model: URL parsing, connection, OPTIONS/DESCRIBE/SETUP/PLAY and `Wait`. Its results arrive as parameters: the described tracks, the track ID of each packet, and the decoded access unit or its absence.
- RTP unmarshalling and H.264 depacketisation (`DecodeUntilMarker`) are not part of this model. Their success is the `Some` of the `decoded` parameter.
- The frame renderer is a function parameter. The temporary file (its name holds `time.Now` and a pointer address), its removal, the ffmpeg command line and the log line are left out, because they are I/O or not deterministic.
- `Do`, `do`, `Close` and `Error` are left out: goroutines, channels and context cancellation are concurrency. Errors are returned as `Result` values instead of being sent on a channel. The directory creation in `do` is I/O.
- filepath.Join, Dir and Base are modelled as a split at the last '/'. `Clean` is not modelled: doubled or trailing separators, "." and ".." are not normalised, and an empty directory is not turned into ".".
- Reading the configuration file and JSON decoding are left out. `Config.New` receives the decoding result.
- The usage, help and version texts (flag/options.go) and `main.go` are outside the core. Process exit is returned as an `Exit` outcome.
- Rtsp.Session.OnPacketRTP requires every NAL unit of a decoded packet on the selected track to be non-empty. The source reads `nalu[0]` unchecked and would panic on an empty unit, so the model does not cover that panic.
- Rtsp.Session.ScanUnit has the same non-empty requirement, for the same reason. Rtsp.Session.Consider needs none, because an empty unit is not a keyframe in the model.
- Rtsp.ThrottleExact is stated only where the subtraction and the interval fit in int64. The wrapped behaviour is in `ShouldCapture` itself.
- Rtsp.ThrottleClosedWithinInterval is stated only for intervals whose nanosecond value fits in int64, and where pts − cursor does not overflow.
- Rtsp.ThrottleCursorStaysAbove is stated only for a non-negative interval whose nanosecond value fits in int64, and where pts − cursor does not overflow.
- Rtsp.ShouldCapture states the unwrapped form only where pts − cursor fits in int64.
- Rtsp.FragmentSplitsBack holds only when SPS, PPS and NAL unit contain no start code. H.264 emulation prevention guarantees this for real streams, and the source does not check it.
