/** The per-camera capture logic of rtsp/rtsp.go: choosing the H.264 track,
    the keyframe test and capture throttle run for every decoded access unit,
    the Annex B fragment handed to the frame renderer, and the name of the
    image it renders. The RTSP client, RTP depacketisation, ffmpeg and the
    temporary file are outside the model: what they produce arrives as
    parameters. */
module Rtsp {
  import opened Wrappers
  import opened GoInt

  type byte = bv8

  /** time.Millisecond * 1000, in nanoseconds. */
  const Second: Int64 := 1_000_000_000

  /** The capture interval `time.Millisecond*1000*time.Duration(duration)`
      for an interval of `duration` seconds, as a wrapped int64. */
  function IntervalNs(duration: Int64): (r: Int64)
    ensures -TwoTo63 <= duration * Second < TwoTo63 ==> r == duration * Second
    ensures 0 <= duration <= 9_223_372_036 ==> 0 <= r == duration * Second
  {
    Wrap64(Second * duration)
  }

  // ---------------------------------------------------------------------
  // H.264 NAL units (ITU-T H.264, section 7.4.1 and Annex B)
  // ---------------------------------------------------------------------

  /** nal_unit_type of ITU-T H.264 section 7.4.1, Table 7-1, for a coded
      slice of an IDR picture. */
  const IdrSlice: int := 5

  /** Every unit is non-empty: the source reads `nalu[0]` without a check. */
  predicate AllNonEmpty(nalus: seq<seq<byte>>)
  {
    forall k :: 0 <= k < |nalus| ==> |nalus[k]| > 0
  }

  /** nal_unit_type: the low five bits of the first byte. */
  function NalType(nalu: seq<byte>): (t: int)
    requires |nalu| > 0
    ensures 0 <= t < 32
    ensures t == nalu[0] as int % 32
  {
    (nalu[0] & 0x1f) as int
  }

  /** A coded slice of an IDR picture. An empty unit is none; the source
      would fail reading its first byte, which OnPacketRTP's precondition
      excludes. */
  predicate IsKeyframe(nalu: seq<byte>): (k: bool)
    ensures k <==> |nalu| > 0 && nalu[0] as int % 32 == IdrSlice
  {
    |nalu| > 0 && NalType(nalu) == IdrSlice
  }

  /** The Annex B start code prefix (ITU-T H.264, section B.1). */
  const StartCode: seq<byte> := [0, 0, 0, 1]

  /** The byte stream `write` builds: each of SPS, PPS and the NAL unit
      behind its own start code. */
  function Fragment(sps: seq<byte>, pps: seq<byte>, nalu: seq<byte>): (f: seq<byte>)
    ensures |f| == 12 + |sps| + |pps| + |nalu|
    ensures f[..4] == StartCode && f[|f| - |nalu|..] == nalu
  {
    StartCode + sps + StartCode + pps + StartCode + nalu
  }

  /** Where each part sits in a fragment: SPS at offset 4, PPS at 8 + |sps|,
      the NAL unit at 12 + |sps| + |pps|, each after a start code. */
  lemma FragmentLayout(sps: seq<byte>, pps: seq<byte>, nalu: seq<byte>)
    ensures var f := Fragment(sps, pps, nalu);
      |f| == 12 + |sps| + |pps| + |nalu| &&
      f[..4] == StartCode &&
      f[4..4 + |sps|] == sps &&
      f[4 + |sps|..8 + |sps|] == StartCode &&
      f[8 + |sps|..8 + |sps| + |pps|] == pps &&
      f[8 + |sps| + |pps|..12 + |sps| + |pps|] == StartCode &&
      f[12 + |sps| + |pps|..] == nalu
  {
  }

  /** `s` begins with a start code. */
  predicate StartsWithStartCode(s: seq<byte>)
  {
    |s| >= 4 && s[0] == 0 && s[1] == 0 && s[2] == 0 && s[3] == 1
  }

  /** No start code occurs inside `x` (what emulation prevention guarantees
      for the payload of a NAL unit). */
  predicate HasNoStartCode(x: seq<byte>)
  {
    forall i :: 0 <= i <= |x| ==> !StartsWithStartCode(x[i..])
  }

  /** The pieces of `s` between start codes, scanning left to right; `cur`
      is the piece read so far. */
  function SplitFrom(s: seq<byte>, cur: seq<byte>): (r: seq<seq<byte>>)
    decreases |s|
  {
    if StartsWithStartCode(s) then [cur] + SplitFrom(s[4..], [])
    else if s == [] then [cur]
    else SplitFrom(s[1..], cur + [s[0]])
  }

  function SplitAtStartCodes(s: seq<byte>): seq<seq<byte>>
  {
    SplitFrom(s, [])
  }

  lemma DropKeepsNoStartCode(x: seq<byte>)
    requires HasNoStartCode(x) && x != []
    ensures HasNoStartCode(x[1..])
  {
    forall i | 0 <= i <= |x[1..]|
      ensures !StartsWithStartCode(x[1..][i..])
    {
      assert x[1..][i..] == x[i + 1..];
    }
  }

  lemma {:induction false} SplitNoStartCode(x: seq<byte>, cur: seq<byte>)
    requires HasNoStartCode(x)
    ensures SplitFrom(x, cur) == [cur + x]
    decreases |x|
  {
    if x == [] {
      assert cur + x == cur;
    } else {
      assert x[0..] == x;
      DropKeepsNoStartCode(x);
      SplitNoStartCode(x[1..], cur + [x[0]]);
      assert cur + [x[0]] + x[1..] == cur + x;
    }
  }

  /** A piece free of start codes followed by a start code splits off as one
      piece: no start code can straddle the boundary. */
  lemma {:induction false} SplitAtBoundary(x: seq<byte>, rest: seq<byte>, cur: seq<byte>)
    requires HasNoStartCode(x)
    ensures SplitFrom(x + StartCode + rest, cur) == [cur + x] + SplitFrom(rest, [])
    decreases |x|
  {
    var s := x + StartCode + rest;
    if x == [] {
      assert s == StartCode + rest;
      assert StartsWithStartCode(s);
      assert s[4..] == rest;
      assert cur + x == cur;
    } else {
      assert x[0..] == x;
      if |x| < 4 {
        assert s[3] == StartCode[3 - |x|] == 0;
      } else {
        assert s[..4] == x[..4];
      }
      assert !StartsWithStartCode(s);
      DropKeepsNoStartCode(x);
      assert s[1..] == x[1..] + StartCode + rest;
      SplitAtBoundary(x[1..], rest, cur + [x[0]]);
      assert cur + [x[0]] + x[1..] == cur + x;
    }
  }

  /** SplitAtBoundary for a piece at the start of a split. */
  lemma SplitPieceOff(x: seq<byte>, rest: seq<byte>)
    requires HasNoStartCode(x)
    ensures SplitFrom(x + StartCode + rest, []) == [x] + SplitFrom(rest, [])
  {
    SplitAtBoundary(x, rest, []);
    assert [] + x == x;
  }

  /** Splitting a fragment at its start codes gives back an empty leading
      piece, then the SPS, the PPS and the NAL unit, whenever none of the
      three contains a start code. */
  lemma FragmentSplitsBack(sps: seq<byte>, pps: seq<byte>, nalu: seq<byte>)
    requires HasNoStartCode(sps) && HasNoStartCode(pps) && HasNoStartCode(nalu)
    ensures SplitAtStartCodes(Fragment(sps, pps, nalu)) == [[], sps, pps, nalu]
  {
    var tail2 := pps + StartCode + nalu;
    var tail1 := sps + StartCode + tail2;
    calc {
      SplitAtStartCodes(Fragment(sps, pps, nalu));
      { assert Fragment(sps, pps, nalu) == [] + StartCode + tail1; }
      SplitFrom([] + StartCode + tail1, []);
      { assert HasNoStartCode([]); SplitPieceOff([], tail1); }
      [[]] + SplitFrom(tail1, []);
      { SplitPieceOff(sps, tail2); }
      [[]] + ([sps] + SplitFrom(tail2, []));
      { SplitPieceOff(pps, nalu); }
      [[]] + ([sps] + ([pps] + SplitFrom(nalu, [])));
      { SplitNoStartCode(nalu, []); assert [] + nalu == nalu; }
      [[]] + ([sps] + ([pps] + [nalu]));
      [[], sps, pps, nalu];
    }
  }

  // ---------------------------------------------------------------------
  // Output file name
  // ---------------------------------------------------------------------

  /** A path split at its last '/': the directory part keeps its trailing
      separator, the base name contains none. */
  function SplitPath(path: string): (r: (string, string))
    ensures r.0 + r.1 == path
    ensures '/' !in r.1
    ensures r.0 == [] || r.0[|r.0| - 1] == '/'
    decreases |path|
  {
    if path == [] then ([], [])
    else if path[|path| - 1] == '/' then (path, [])
    else
      var (dir, base) := SplitPath(path[..|path| - 1]);
      (dir, base + [path[|path| - 1]])
  }

  /** The split is determined by the two properties SplitPath promises. */
  lemma {:induction false} SplitPathUnique(dir: string, base: string)
    requires dir == [] || dir[|dir| - 1] == '/'
    requires '/' !in base
    ensures SplitPath(dir + base) == (dir, base)
    decreases |base|
  {
    if base == [] {
      assert dir + base == dir;
      if dir != [] {
        assert SplitPath(dir) == (dir, []);
      }
    } else {
      var init := base[..|base| - 1];
      assert (dir + base)[..|dir + base| - 1] == dir + init;
      SplitPathUnique(dir, init);
      assert init + [base[|base| - 1]] == base;
    }
  }

  /** The base name contains the serial placeholder "sn". */
  predicate HasPlaceholder(s: string)
  {
    exists i :: 0 <= i < |s| && PlaceholderAt(s, i)
  }

  /** "sn" starts at index `i` of `s`. */
  predicate PlaceholderAt(s: string, i: int)
  {
    0 <= i && i + 1 < |s| && s[i] == 's' && s[i + 1] == 'n'
  }

  /** strings.ReplaceAll(s, "sn", sn): every "sn", leftmost first and without
      overlap, becomes the serial. */
  function ReplacePlaceholder(s: string, sn: string): (r: string)
    ensures forall c :: c in r ==> c in s || c in sn
    decreases |s|
  {
    if |s| >= 2 && s[0] == 's' && s[1] == 'n' then sn + ReplacePlaceholder(s[2..], sn)
    else if s == [] then []
    else [s[0]] + ReplacePlaceholder(s[1..], sn)
  }

  lemma {:induction false} ReplaceLength(s: string, sn: string)
    ensures |sn| >= 2 ==> |ReplacePlaceholder(s, sn)| >= |s|
    ensures |sn| <= 2 ==> |ReplacePlaceholder(s, sn)| <= |s|
    decreases |s|
  {
    if |s| >= 2 && s[0] == 's' && s[1] == 'n' {
      ReplaceLength(s[2..], sn);
    } else if s != [] {
      ReplaceLength(s[1..], sn);
    }
  }

  /** The base name comes back unchanged exactly when it holds no "sn" or the
      serial is itself "sn". */
  lemma {:induction false} ReplaceUnchangedIff(s: string, sn: string)
    ensures ReplacePlaceholder(s, sn) == s <==> !HasPlaceholder(s) || sn == "sn"
    decreases |s|
  {
    var r := ReplacePlaceholder(s, sn);
    if |s| >= 2 && s[0] == 's' && s[1] == 'n' {
      var t := s[2..];
      assert HasPlaceholder(s) by { assert PlaceholderAt(s, 0); }
      assert s == "sn" + t;
      ReplaceUnchangedIff(t, sn);
      if sn == "sn" {
        assert r == "sn" + ReplacePlaceholder(t, sn);
      } else {
        ReplaceLength(t, sn);
        if |sn| == 2 {
          assert r[..2] == sn != s[..2];
        }
      }
    } else if s == [] {
      assert !HasPlaceholder(s);
    } else {
      var t := s[1..];
      ReplaceUnchangedIff(t, sn);
      assert r == [s[0]] + ReplacePlaceholder(t, sn);
      assert s == [s[0]] + t;
      if HasPlaceholder(s) {
        var i :| 0 <= i < |s| && PlaceholderAt(s, i);
        assert i != 0;
        assert t[i - 1] == s[i] && t[i] == s[i + 1];
        assert PlaceholderAt(t, i - 1);
      }
      if HasPlaceholder(t) {
        var i :| 0 <= i < |t| && PlaceholderAt(t, i);
        assert s[i + 1] == t[i] && s[i + 2] == t[i + 1];
        assert PlaceholderAt(s, i + 1);
      }
      if r == s {
        assert r[1..] == ReplacePlaceholder(t, sn);
      }
    }
  }

  /** Replacing placeholders adds no separator the serial does not bring. */
  lemma {:induction false} ReplaceKeepsNoSlash(s: string, sn: string)
    requires '/' !in s && '/' !in sn
    ensures '/' !in ReplacePlaceholder(s, sn)
    decreases |s|
  {
    if |s| >= 2 && s[0] == 's' && s[1] == 'n' {
      ReplaceKeepsNoSlash(s[2..], sn);
    } else if s != [] {
      ReplaceKeepsNoSlash(s[1..], sn);
    }
  }

  /** filepath.Join(filepath.Dir(filename), strings.ReplaceAll(filepath.Base(filename), "sn", sn)),
      with Join, Dir and Base reduced to the split at the last '/'. */
  function OutputPath(filename: string, sn: string): (r: string)
    ensures SplitPath(filename).0 <= r
    ensures forall c :: c in r ==> c in filename || c in sn
  {
    var (dir, base) := SplitPath(filename);
    dir + ReplacePlaceholder(base, sn)
  }

  /** For a serial without '/', the image lands in the template's directory,
      under the template's base name with every "sn" replaced. */
  lemma OutputPathKeepsDirectory(filename: string, sn: string)
    requires '/' !in sn
    ensures SplitPath(OutputPath(filename, sn)).0 == SplitPath(filename).0
    ensures SplitPath(OutputPath(filename, sn)).1 == ReplacePlaceholder(SplitPath(filename).1, sn)
  {
    var (dir, base) := SplitPath(filename);
    ReplaceKeepsNoSlash(base, sn);
    SplitPathUnique(dir, ReplacePlaceholder(base, sn));
  }

  /** A template whose base name holds no "sn" is used as it is. */
  lemma OutputPathWithoutPlaceholder(filename: string, sn: string)
    requires !HasPlaceholder(SplitPath(filename).1)
    ensures OutputPath(filename, sn) == filename
  {
    ReplaceUnchangedIff(SplitPath(filename).1, sn);
  }

  /** A character that does not begin "sn" is copied as it is. */
  lemma ReplaceCopiesChar(c: char, t: string, sn: string)
    requires c != 's' || t == [] || t[0] != 'n'
    ensures ReplacePlaceholder([c] + t, sn) == [c] + ReplacePlaceholder(t, sn)
  {
    assert ([c] + t)[1..] == t;
  }

  /** A leading "sn" becomes the serial. */
  lemma ReplaceLeading(t: string, sn: string)
    ensures ReplacePlaceholder("sn" + t, sn) == sn + ReplacePlaceholder(t, sn)
  {
    assert ("sn" + t)[2..] == t;
  }

  /** Dropping the first character creates no placeholder. */
  lemma DropKeepsNoPlaceholder(p: string)
    requires p != [] && !HasPlaceholder(p)
    ensures !HasPlaceholder(p[1..])
  {
    forall i | 0 <= i < |p[1..]|
      ensures !PlaceholderAt(p[1..], i)
    {
      assert p[1..][i] == p[i + 1];
      if i + 1 < |p[1..]| {
        assert p[1..][i + 1] == p[i + 2];
        assert !PlaceholderAt(p, i + 1);
      }
    }
  }

  /** The first character of a part without placeholders is copied ahead
      of the "sn" behind it: it cannot start a placeholder, since the next
      character is either the part's second one or the 's' of "sn". */
  lemma ReplaceSingleStep(p: string, q: string, sn: string)
    requires p != [] && !HasPlaceholder(p)
    ensures ReplacePlaceholder(p + "sn" + q, sn) == [p[0]] + ReplacePlaceholder(p[1..] + "sn" + q, sn)
    ensures !HasPlaceholder(p[1..])
  {
    var t := p[1..] + "sn" + q;
    assert p + "sn" + q == [p[0]] + t;
    assert p[0] != 's' || t[0] != 'n' by {
      if |p| >= 2 {
        assert t[0] == p[1];
        assert !PlaceholderAt(p, 0);
      }
    }
    ReplaceCopiesChar(p[0], t, sn);
    DropKeepsNoPlaceholder(p);
  }

  /** The leftmost "sn" is replaced by the serial and substitution goes on
      behind it: with ReplaceUnchangedIff this determines the result for
      any number of placeholders. */
  lemma {:induction false} ReplaceLeftmost(p: string, q: string, sn: string)
    requires !HasPlaceholder(p)
    ensures ReplacePlaceholder(p + "sn" + q, sn) == p + sn + ReplacePlaceholder(q, sn)
    decreases |p|
  {
    if p == [] {
      ReplaceLeading(q, sn);
      assert p + "sn" + q == "sn" + q;
      assert p + sn + ReplacePlaceholder(q, sn) == sn + ReplacePlaceholder(q, sn);
    } else {
      ReplaceSingleStep(p, q, sn);
      ReplaceLeftmost(p[1..], q, sn);
      assert [p[0]] + (p[1..] + sn + ReplacePlaceholder(q, sn)) == p + sn + ReplacePlaceholder(q, sn);
    }
  }

  /** A single "sn" between two parts that hold none is replaced and both
      parts are kept. */
  lemma ReplaceSingle(p: string, q: string, sn: string)
    requires !HasPlaceholder(p) && !HasPlaceholder(q)
    ensures ReplacePlaceholder(p + "sn" + q, sn) == p + sn + q
  {
    ReplaceLeftmost(p, q, sn);
    ReplaceUnchangedIff(q, sn);
  }

  /** Two placeholders, as in "snap-sn.png", are both replaced. */
  lemma ReplaceTwice(p: string, r: string, q: string, sn: string)
    requires !HasPlaceholder(p) && !HasPlaceholder(r) && !HasPlaceholder(q)
    ensures ReplacePlaceholder(p + "sn" + r + "sn" + q, sn) == p + sn + r + sn + q
  {
    assert p + "sn" + r + "sn" + q == p + "sn" + (r + "sn" + q);
    ReplaceLeftmost(p, r + "sn" + q, sn);
    ReplaceSingle(r, q, sn);
    assert p + sn + (r + sn + q) == p + sn + r + sn + q;
  }

  /** A template split at its last '/' by construction. */
  lemma OutputPathSplit(dir: string, base: string, sn: string)
    requires dir == [] || dir[|dir| - 1] == '/'
    requires '/' !in base
    ensures OutputPath(dir + base, sn) == dir + ReplacePlaceholder(base, sn)
  {
    SplitPathUnique(dir, base);
  }

  /** A template "<dir>/<p>sn<q>" with one placeholder in its base name gives
      "<dir>/<p><serial><q>". */
  lemma OutputPathSinglePlaceholder(dir: string, p: string, q: string, sn: string)
    requires dir == [] || dir[|dir| - 1] == '/'
    requires '/' !in p && '/' !in q
    requires !HasPlaceholder(p) && !HasPlaceholder(q)
    ensures OutputPath(dir + p + "sn" + q, sn) == dir + p + sn + q
  {
    var base := p + "sn" + q;
    assert '/' !in base by {
      assert '/' !in "sn";
    }
    assert dir + p + "sn" + q == dir + base;
    OutputPathSplit(dir, base, sn);
    ReplaceSingle(p, q, sn);
    assert dir + (p + sn + q) == dir + p + sn + q;
  }

  /** A name without the letter 's' holds no placeholder. */
  lemma NoPlaceholderWithoutS(p: string)
    requires 's' !in p
    ensures !HasPlaceholder(p)
  {
    forall i | 0 <= i < |p| ensures !PlaceholderAt(p, i) {
      assert p[i] in p;
    }
  }

  /** With the template "./out/cam-sn.jpg", camera `sn` writes
      "./out/cam-<sn>.jpg"; two cameras with different serials therefore
      write different files. */
  lemma OutputPathScenario(sn: string)
    ensures OutputPath("./out/cam-sn.jpg", sn) == "./out/cam-" + sn + ".jpg"
  {
    var dir, p, q := "./out/", "cam-", ".jpg";
    calc {
      OutputPath("./out/cam-sn.jpg", sn);
      { assert "./out/cam-sn.jpg" == dir + p + "sn" + q; }
      OutputPath(dir + p + "sn" + q, sn);
      { NoPlaceholderWithoutS(p);
        NoPlaceholderWithoutS(q);
        OutputPathSinglePlaceholder(dir, p, q, sn); }
      dir + p + sn + q;
    }
  }

  // ---------------------------------------------------------------------
  // Capture throttle
  // ---------------------------------------------------------------------

  /** The condition at rtsp/rtsp.go:150 for a keyframe with timestamp `pts`,
      in int64 arithmetic. */
  predicate ShouldCapture(pts: Int64, cursor: Int64, duration: Int64): (capture: bool)
    ensures -TwoTo63 <= pts - cursor < TwoTo63 ==>
              (capture <==> pts - cursor >= IntervalNs(duration) || cursor < IntervalNs(duration))
  {
    var interval := IntervalNs(duration);
    Wrap64(pts - cursor) >= interval || cursor < interval
  }

  /** Without overflow, the throttle is the exact-arithmetic condition: the
      gap reached the interval, or the cursor is still below it. */
  lemma ThrottleExact(pts: Int64, cursor: Int64, duration: Int64)
    requires -TwoTo63 <= duration * Second < TwoTo63
    requires -TwoTo63 <= pts - cursor < TwoTo63
    ensures ShouldCapture(pts, cursor, duration) <==>
            pts - cursor >= duration * Second || cursor < duration * Second
  {
  }

  /** While the cursor is below the interval every keyframe passes, whatever
      its timestamp, even one equal to or before the cursor. */
  lemma ThrottleOpenBelowInterval(pts: Int64, cursor: Int64, duration: Int64)
    requires cursor < IntervalNs(duration)
    ensures ShouldCapture(pts, cursor, duration)
  {
  }

  /** Once the cursor has reached the interval, a keyframe less than the
      interval after it, or at or before it, is dropped. */
  lemma ThrottleClosedWithinInterval(pts: Int64, cursor: Int64, duration: Int64)
    requires -TwoTo63 <= duration * Second < TwoTo63
    requires cursor >= duration * Second
    requires -TwoTo63 <= pts - cursor < duration * Second
    ensures !ShouldCapture(pts, cursor, duration)
  {
  }

  /** Once the cursor has reached a non-negative interval it never falls
      below it again: a keyframe passes only a full interval after the
      cursor, and becomes the new cursor. Timestamps that jump back stop
      captures until they are an interval past the cursor. */
  lemma ThrottleCursorStaysAbove(pts: Int64, cursor: Int64, duration: Int64)
    requires 0 <= duration <= 9_223_372_036
    requires cursor >= duration * Second
    requires -TwoTo63 <= pts - cursor < TwoTo63
    requires ShouldCapture(pts, cursor, duration)
    ensures pts >= cursor + duration * Second >= duration * Second
  {
  }

  // ---------------------------------------------------------------------
  // One access unit through the callback
  // ---------------------------------------------------------------------

  /** A decoded access unit: its NAL units and its presentation time (ns). */
  datatype AccessUnit = AccessUnit(nalus: seq<seq<byte>>, pts: Int64)

  /** The cursor after some NAL units, and the ones handed to `write`. */
  datatype Captures = Captures(cursor: Int64, written: seq<seq<byte>>)

  /** The loop at rtsp/rtsp.go:147-155 over the NAL units of one access unit
      with timestamp `pts`, starting from `cursor`. */
  function Scan(cursor: Int64, duration: Int64, pts: Int64, nalus: seq<seq<byte>>): (c: Captures)
    ensures c.cursor == if c.written == [] then cursor else pts
    decreases |nalus|
  {
    if nalus == [] then Captures(cursor, [])
    else
      var prev := Scan(cursor, duration, pts, nalus[..|nalus| - 1]);
      var nalu := nalus[|nalus| - 1];
      if IsKeyframe(nalu) && ShouldCapture(pts, prev.cursor, duration)
      then Captures(pts, prev.written + [nalu])
      else prev
  }

  /** The keyframes among `nalus`, in order. */
  function Keyframes(nalus: seq<seq<byte>>): seq<seq<byte>>
    decreases |nalus|
  {
    if nalus == [] then []
    else
      var init := Keyframes(nalus[..|nalus| - 1]);
      if IsKeyframe(nalus[|nalus| - 1]) then init + [nalus[|nalus| - 1]] else init
  }

  /** One more NAL unit: it is written exactly when it is a keyframe and the
      throttle, at the cursor the earlier units left, lets it through. */
  lemma ScanStep(cursor: Int64, duration: Int64, pts: Int64, nalus: seq<seq<byte>>, nalu: seq<byte>)
    ensures var prev := Scan(cursor, duration, pts, nalus);
      Scan(cursor, duration, pts, nalus + [nalu]) ==
        if IsKeyframe(nalu) && ShouldCapture(pts, prev.cursor, duration)
        then Captures(pts, prev.written + [nalu]) else prev
  {
    assert (nalus + [nalu])[..|nalus|] == nalus;
  }

  /** Only keyframes of the unit are written, never more than it holds. */
  lemma {:induction false} ScanWritesOnlyKeyframes(cursor: Int64, duration: Int64, pts: Int64, nalus: seq<seq<byte>>)
    ensures var c := Scan(cursor, duration, pts, nalus);
      |c.written| <= |nalus| &&
      forall k :: 0 <= k < |c.written| ==> c.written[k] in nalus && |c.written[k]| > 0 && IsKeyframe(c.written[k])
    decreases |nalus|
  {
    if nalus != [] {
      var init := nalus[..|nalus| - 1];
      ScanWritesOnlyKeyframes(cursor, duration, pts, init);
      forall x | x in init ensures x in nalus {
        var j :| 0 <= j < |init| && init[j] == x;
        assert nalus[j] == x;
      }
    }
  }

  /** A unit without keyframes writes nothing and leaves the cursor alone. */
  lemma ScanSkipsNonKeyframes(cursor: Int64, duration: Int64, pts: Int64, nalus: seq<seq<byte>>)
    requires forall k :: 0 <= k < |nalus| ==> !IsKeyframe(nalus[k])
    ensures Scan(cursor, duration, pts, nalus) == Captures(cursor, [])
  {
    ScanWritesOnlyKeyframes(cursor, duration, pts, nalus);
  }

  /** While both the cursor and the unit's timestamp are below the interval,
      every keyframe of the unit is written. */
  lemma {:induction false} ScanBelowIntervalWritesAll(cursor: Int64, duration: Int64, pts: Int64, nalus: seq<seq<byte>>)
    requires cursor < IntervalNs(duration) && pts < IntervalNs(duration)
    ensures Scan(cursor, duration, pts, nalus).written == Keyframes(nalus)
    decreases |nalus|
  {
    if nalus != [] {
      ScanBelowIntervalWritesAll(cursor, duration, pts, nalus[..|nalus| - 1]);
    }
  }

  /** Once the unit's timestamp has reached a positive interval, a unit
      writes at most one of its keyframes: the first capture moves the cursor
      to the unit's own timestamp, which closes the throttle. */
  lemma {:induction false} ScanAtMostOnceAboveInterval(cursor: Int64, duration: Int64, pts: Int64, nalus: seq<seq<byte>>)
    requires 0 < IntervalNs(duration) <= pts
    ensures |Scan(cursor, duration, pts, nalus).written| <= 1
    decreases |nalus|
  {
    if nalus != [] {
      var prev := Scan(cursor, duration, pts, nalus[..|nalus| - 1]);
      ScanAtMostOnceAboveInterval(cursor, duration, pts, nalus[..|nalus| - 1]);
      if prev.written != [] {
        assert Wrap64(pts - prev.cursor) == 0;
        assert !ShouldCapture(pts, prev.cursor, duration);
      }
    }
  }

  /** An access unit holding a single NAL unit. */
  lemma ScanSingle(cursor: Int64, duration: Int64, pts: Int64, nalu: seq<byte>)
    ensures Scan(cursor, duration, pts, [nalu]) ==
      if IsKeyframe(nalu) && ShouldCapture(pts, cursor, duration)
      then Captures(pts, [nalu]) else Captures(cursor, [])
  {
    ScanStep(cursor, duration, pts, [], nalu);
    assert [] + [nalu] == [nalu];
  }

  /** Interval 3 s, one keyframe each at 0, 1, 2, 3.2 and 4 s, delivered in
      that order, each unit starting from the cursor the previous one left:
      the cursor stays below 3 s through the first three, so all of them are
      captured, then 3.2 s is captured and 4 s is dropped. */
  lemma ThreeSecondScenario(k0: seq<byte>, k1: seq<byte>, k2: seq<byte>, k3: seq<byte>, k4: seq<byte>)
    requires IsKeyframe(k0) && IsKeyframe(k1) && IsKeyframe(k2) && IsKeyframe(k3) && IsKeyframe(k4)
    ensures Scan(0, 3, 0, [k0]) == Captures(0, [k0])
    ensures Scan(0, 3, 1_000_000_000, [k1]) == Captures(1_000_000_000, [k1])
    ensures Scan(1_000_000_000, 3, 2_000_000_000, [k2]) == Captures(2_000_000_000, [k2])
    ensures Scan(2_000_000_000, 3, 3_200_000_000, [k3]) == Captures(3_200_000_000, [k3])
    ensures Scan(3_200_000_000, 3, 4_000_000_000, [k4]) == Captures(3_200_000_000, [])
  {
    ScanSingle(0, 3, 0, k0);
    ScanSingle(0, 3, 1_000_000_000, k1);
    ScanSingle(1_000_000_000, 3, 2_000_000_000, k2);
    ScanSingle(2_000_000_000, 3, 3_200_000_000, k3);
    ScanSingle(3_200_000_000, 3, 4_000_000_000, k4);
    assert IntervalNs(3) == 3_000_000_000;
    assert !ShouldCapture(4_000_000_000, 3_200_000_000, 3);
  }

  // ---------------------------------------------------------------------
  // Track selection
  // ---------------------------------------------------------------------

  /** The SPS and PPS `ExtractConfigH264` finds in a track's description. */
  datatype H264Config = H264Config(sps: seq<byte>, pps: seq<byte>)

  /** A described track: whether it carries H.264, and what extracting its
      parameter sets yields (consulted only for H.264 tracks). */
  datatype Track = Track(isH264: bool, config: Result<H264Config, string>)

  const TrackNotFound: string := "h264 track not found"

  /** The lowest index from `from` on whose track is H.264. */
  function FirstH264(tracks: seq<Track>, from: nat): (r: Option<nat>)
    requires from <= |tracks|
    ensures r.Some? ==> from <= r.value < |tracks| && tracks[r.value].isH264
    ensures r.Some? ==> forall j :: from <= j < r.value ==> !tracks[j].isH264
    ensures r.None? <==> forall j :: from <= j < |tracks| ==> !tracks[j].isH264
    decreases |tracks| - from
  {
    if from == |tracks| then None
    else if tracks[from].isH264 then Some(from)
    else FirstH264(tracks, from + 1)
  }

  /** What `write` hands to the frame renderer: the fragment bytes and the
      image path. */
  datatype RenderJob = RenderJob(fragment: seq<byte>, output: string)

  /** The renderer's answer; the diagnostic is ffmpeg's error output or the
      temporary-file error. */
  datatype RenderOutcome = Rendered | Failed(diagnostic: string)

  /** The render jobs `write` issues for `nalus`, in order. */
  function Jobs(sps: seq<byte>, pps: seq<byte>, output: string, nalus: seq<seq<byte>>): seq<RenderJob>
    decreases |nalus|
  {
    if nalus == [] then []
    else Jobs(sps, pps, output, nalus[..|nalus| - 1]) + [RenderJob(Fragment(sps, pps, nalus[|nalus| - 1]), output)]
  }

  /** ScanStep for the prefixes of one access unit, as a loop visits them. */
  lemma ScanPrefixStep(cursor: Int64, duration: Int64, pts: Int64, nalus: seq<seq<byte>>, i: nat)
    requires i < |nalus|
    ensures var prev := Scan(cursor, duration, pts, nalus[..i]);
      Scan(cursor, duration, pts, nalus[..i + 1]) ==
        if IsKeyframe(nalus[i]) && ShouldCapture(pts, prev.cursor, duration)
        then Captures(pts, prev.written + [nalus[i]]) else prev
  {
    assert nalus[..i + 1] == nalus[..i] + [nalus[i]];
    ScanStep(cursor, duration, pts, nalus[..i], nalus[i]);
  }

  /** Jobs for one more unit, behind whatever requests came before. */
  lemma JobsAppend(before: seq<RenderJob>, sps: seq<byte>, pps: seq<byte>, output: string,
                   nalus: seq<seq<byte>>, nalu: seq<byte>)
    ensures before + Jobs(sps, pps, output, nalus + [nalu]) ==
            before + Jobs(sps, pps, output, nalus) + [RenderJob(Fragment(sps, pps, nalu), output)]
  {
    assert (nalus + [nalu])[..|nalus|] == nalus;
  }

  // ---------------------------------------------------------------------
  // The RTSP session
  // ---------------------------------------------------------------------

  /** The `RTSP` struct: one camera's session. `requests` stands for the
      calls to `write`, in order, whether or not the image was produced. */
  class Session {
    const sn: string
    const url: string
    const filename: string
    const duration: Int64
    var pts: Int64
    var sps: seq<byte>
    var pps: seq<byte>
    var requests: seq<RenderJob>

    /** `New`: a fresh session has its cursor at zero and no parameter sets. */
    constructor (sn: string, url: string, filename: string, duration: Int64)
      ensures this.sn == sn && this.url == url && this.filename == filename && this.duration == duration
      ensures pts == 0 && sps == [] && pps == [] && requests == []
    {
      this.sn := sn;
      this.url := url;
      this.filename := filename;
      this.duration := duration;
      pts := 0;
      sps := [];
      pps := [];
      requests := [];
    }

    /** The track loop of `request`: the first H.264 track is chosen and its
        SPS and PPS cached; a failed extraction or the lack of an H.264 track
        is returned as the error and caches nothing. */
    method SelectTrack(tracks: seq<Track>) returns (r: Result<nat, string>)
      modifies this`sps, this`pps
      ensures FirstH264(tracks, 0).None? ==>
                r == Err(TrackNotFound) && sps == old(sps) && pps == old(pps)
      ensures FirstH264(tracks, 0).Some? && tracks[FirstH264(tracks, 0).value].config.Err? ==>
                r == Err(tracks[FirstH264(tracks, 0).value].config.error) && sps == old(sps) && pps == old(pps)
      ensures FirstH264(tracks, 0).Some? && tracks[FirstH264(tracks, 0).value].config.Ok? ==>
                var i := FirstH264(tracks, 0).value;
                r == Ok(i) && sps == tracks[i].config.value.sps && pps == tracks[i].config.value.pps
    {
      var ok := false;
      var tid := 0;
      var index := 0;
      while index < |tracks|
        invariant 0 <= index <= |tracks|
        invariant !ok
        invariant forall j :: 0 <= j < index ==> !tracks[j].isH264
        invariant sps == old(sps) && pps == old(pps)
      {
        var track := tracks[index];
        if track.isH264 {
          if track.config.Err? {
            return Err(track.config.error);
          }
          ok := true;
          tid := index;
          sps := track.config.value.sps;
          pps := track.config.value.pps;
          break;
        }
        index := index + 1;
      }
      if !ok {
        return Err(TrackNotFound);
      }
      return Ok(tid);
    }

    /** `write`: the fragment is built by successive appends and handed,
        with the output path, to the renderer. */
    method Write(nalu: seq<byte>, render: RenderJob -> RenderOutcome) returns (outcome: RenderOutcome)
      modifies this`requests
      ensures requests == old(requests) + [RenderJob(Fragment(sps, pps, nalu), OutputPath(filename, sn))]
      ensures outcome == render(requests[|requests| - 1])
    {
      var buf: seq<byte> := [];
      buf := buf + StartCode;
      buf := buf + sps;
      buf := buf + StartCode;
      buf := buf + pps;
      buf := buf + StartCode;
      buf := buf + nalu;
      assert buf == Fragment(sps, pps, nalu);
      var job := RenderJob(buf, OutputPath(filename, sn));
      requests := requests + [job];
      outcome := render(job);
    }

    /** The body of the loop over the NAL units of one access unit: an IDR
        unit that the throttle lets through is written and moves the cursor to
        the unit's timestamp, whether or not rendering succeeds. */
    method Consider(nalu: seq<byte>, unitPts: Int64, render: RenderJob -> RenderOutcome) returns (captured: bool)
      modifies this`pts, this`requests
      ensures captured <==> IsKeyframe(nalu) && ShouldCapture(unitPts, old(pts), duration)
      ensures captured ==>
                pts == unitPts &&
                requests == old(requests) + [RenderJob(Fragment(sps, pps, nalu), OutputPath(filename, sn))]
      ensures !captured ==> pts == old(pts) && requests == old(requests)
    {
      captured := false;
      if IsKeyframe(nalu) {
        if ShouldCapture(unitPts, pts, duration) {
          var _ := Write(nalu, render);
          pts := unitPts;
          captured := true;
        }
      }
    }

    /** The `OnPacketRTP` callback for the selected track `tid`. A packet of
        another track, or one that does not unmarshal or decode (`decoded`
        is None), changes nothing; otherwise each IDR unit the throttle lets
        through is written and moves the cursor, whatever the renderer says. */
    method OnPacketRTP(tid: nat, trackID: int, decoded: Option<AccessUnit>, render: RenderJob -> RenderOutcome)
      requires trackID == tid && decoded.Some? ==> AllNonEmpty(decoded.value.nalus)
      modifies this`pts, this`requests
      ensures trackID != tid || decoded.None? ==> pts == old(pts) && requests == old(requests)
      ensures trackID == tid && decoded.Some? ==>
                var c := Scan(old(pts), duration, decoded.value.pts, decoded.value.nalus);
                pts == c.cursor && requests == old(requests) + Jobs(sps, pps, OutputPath(filename, sn), c.written)
    {
      if trackID != tid {
        return;
      }
      if decoded.None? {
        return;
      }
      ScanUnit(decoded.value.nalus, decoded.value.pts, render);
    }

    /** The loop of `OnPacketRTP` over the NAL units of one access unit,
        proved against Scan. */
    method ScanUnit(nalus: seq<seq<byte>>, unitPts: Int64, render: RenderJob -> RenderOutcome)
      requires AllNonEmpty(nalus)
      modifies this`pts, this`requests
      ensures var c := Scan(old(pts), duration, unitPts, nalus);
                pts == c.cursor && requests == old(requests) + Jobs(sps, pps, OutputPath(filename, sn), c.written)
    {
      ghost var cursor0, requests0 := pts, requests;
      ghost var output := OutputPath(filename, sn);
      ghost var c := Captures(cursor0, []);
      for i := 0 to |nalus|
        invariant c == Scan(cursor0, duration, unitPts, nalus[..i])
        invariant pts == c.cursor
        invariant requests == requests0 + Jobs(sps, pps, output, c.written)
      {
        var nalu := nalus[i];
        ScanPrefixStep(cursor0, duration, unitPts, nalus, i);
        var captured := Consider(nalu, unitPts, render);
        if captured {
          JobsAppend(requests0, sps, pps, output, c.written, nalu);
          c := Captures(unitPts, c.written + [nalu]);
        }
      }
      assert nalus[..|nalus|] == nalus;
    }
  }
}
