/**
 * The telemetry frame grammar of custom_components/iqos/api/const.py and the
 * `re.search` that applies it.
 *
 * The pattern is the concatenation of four groups,
 *   frame_start        `(\x07|\x0f)\x00`
 *   frame_case_battery `(?P<case_battery>.)`
 *   frame_unknown      `(?P<unknown>...)`
 *   frame_pen_battery  `(?P<pen_battery>.?)`
 * compiled without flags, so `.` is any byte except a newline (0x0A). Each group
 * is modelled by a matcher that takes the offset it starts at and gives the offset
 * after it. `MatchAt` is an independent, flat statement of the same language, and
 * `FrameAt` is proved to agree with it.
 */
module Frame {
  import opened Wrappers

  newtype byte = x: int | 0 <= x < 256

  const Newline: byte := 0x0A

  /** The bytes that `.` matches in a pattern compiled without DOTALL. */
  predicate Dot(b: byte) {
    b != Newline
  }

  /** The two alternatives of the first group of `frame_start`. */
  predicate StartByte(b: byte) {
    b == 0x07 || b == 0x0F
  }

  /** `frame_start`: a start byte followed by 0x00. */
  function StartAt(buf: seq<byte>, i: nat): Option<nat> {
    if i + 2 <= |buf| && StartByte(buf[i]) && buf[i + 1] == 0 then Some(i + 2) else None
  }

  /** `n` consecutive `.` atoms starting at offset `i`. */
  function DotsAt(buf: seq<byte>, i: nat, n: nat): (r: Option<nat>)
    requires i <= |buf|
    ensures r.Some? <==> i + n <= |buf| && forall k :: i <= k < i + n ==> Dot(buf[k])
    ensures r.Some? ==> r.value == i + n
    decreases n
  {
    if n == 0 then Some(i)
    else if i < |buf| && Dot(buf[i]) then DotsAt(buf, i + 1, n - 1)
    else None
  }

  /** `.?`: greedy, so it takes the byte at `i` whenever `.` matches it. */
  function OptionalDotAt(buf: seq<byte>, i: nat): nat
    requires i <= |buf|
  {
    if i < |buf| && Dot(buf[i]) then i + 1 else i
  }

  /**
   * A successful match: its span `[start, end)`, the byte of the unnamed first
   * group and the three named groups.
   */
  datatype FrameMatch = FrameMatch(
    start: nat,
    end: nat,
    marker: byte,
    caseBattery: seq<byte>,
    unknown: seq<byte>,
    penBattery: seq<byte>)

  /** Flat reference: the pattern matches at offset `i` of `buf`. */
  predicate MatchAt(buf: seq<byte>, i: nat) {
    i + 6 <= |buf| && StartByte(buf[i]) && buf[i + 1] == 0 &&
    forall k :: i + 2 <= k < i + 6 ==> Dot(buf[k])
  }

  /** Flat reference: the pen-battery group of a match at `i` holds one byte. */
  predicate PenPresentAt(buf: seq<byte>, i: nat)
    requires i + 6 <= |buf|
  {
    i + 6 < |buf| && Dot(buf[i + 6])
  }

  /** The pattern anchored at offset `i`: the four groups in sequence. */
  function FrameAt(buf: seq<byte>, i: nat): (r: Option<FrameMatch>)
    ensures r.Some? <==> MatchAt(buf, i)
    ensures r.Some? ==>
      var m := r.value;
      m.start == i && m.marker == buf[i] &&
      m.caseBattery == [buf[i + 2]] &&
      m.unknown == buf[i + 3..i + 6] &&
      m.penBattery == (if PenPresentAt(buf, i) then [buf[i + 6]] else []) &&
      m.end == i + 6 + |m.penBattery|
  {
    match StartAt(buf, i)
    case None => None
    case Some(j) =>
      match DotsAt(buf, j, 1)
      case None => None
      case Some(k) =>
        match DotsAt(buf, k, 3)
        case None => None
        case Some(l) =>
          var e := OptionalDotAt(buf, l);
          Some(FrameMatch(i, e, buf[i], buf[j..k], buf[k..l], buf[l..e]))
  }

  /** The bytes a match consumed, rebuilt from its groups. */
  function Encode(m: FrameMatch): seq<byte> {
    [m.marker, 0] + m.caseBattery + m.unknown + m.penBattery
  }

  /** The frames the grammar admits, as values. */
  predicate WellFormed(m: FrameMatch) {
    StartByte(m.marker) &&
    |m.caseBattery| == 1 && Dot(m.caseBattery[0]) &&
    |m.unknown| == 3 && (forall k :: 0 <= k < 3 ==> Dot(m.unknown[k])) &&
    |m.penBattery| <= 1 && (forall k :: 0 <= k < |m.penBattery| ==> Dot(m.penBattery[k])) &&
    m.end == m.start + 6 + |m.penBattery|
  }

  /** Every match begins with 0x07 or 0x0F followed by 0x00. */
  lemma MatchBeginsWithMarker(buf: seq<byte>, i: nat)
    requires FrameAt(buf, i).Some?
    ensures buf[i] == 0x07 || buf[i] == 0x0F
    ensures buf[i + 1] == 0x00
  {
  }

  /** Exactly one case-battery byte and exactly three unknown bytes follow the marker. */
  lemma FixedGroupWidths(buf: seq<byte>, i: nat)
    requires FrameAt(buf, i).Some?
    ensures |FrameAt(buf, i).value.caseBattery| == 1
    ensures |FrameAt(buf, i).value.unknown| == 3
    ensures |FrameAt(buf, i).value.penBattery| <= 1
  {
  }

  /** The matched span is always 6 or 7 bytes long. */
  lemma SpanIsSixOrSeven(buf: seq<byte>, i: nat)
    requires FrameAt(buf, i).Some?
    ensures FrameAt(buf, i).value.end - i == 6 || FrameAt(buf, i).value.end - i == 7
    ensures FrameAt(buf, i).value.end <= |buf|
  {
  }

  /** The optional pen group is greedy: a trailing byte other than 0x0A is always taken. */
  lemma PenGroupIsGreedy(buf: seq<byte>, i: nat)
    requires MatchAt(buf, i) && i + 6 < |buf| && buf[i + 6] != Newline
    ensures FrameAt(buf, i).value.penBattery == [buf[i + 6]]
  {
  }

  /** A 0x0A in the case-battery or unknown positions rules out a match at that offset. */
  lemma NewlineInFixedGroupsBlocks(buf: seq<byte>, i: nat, k: nat)
    requires i + 2 <= k < i + 6 && k < |buf| && buf[k] == Newline
    ensures FrameAt(buf, i).None?
  {
  }

  /** A 0x0A where the pen byte would be leaves the pen group empty. */
  lemma NewlinePenByteIsEmptyGroup(buf: seq<byte>, i: nat)
    requires MatchAt(buf, i) && i + 6 < |buf| && buf[i + 6] == Newline
    ensures FrameAt(buf, i).value.penBattery == []
    ensures FrameAt(buf, i).value.end == i + 6
  {
  }

  /** Re-encoding the groups of a match gives back exactly the bytes it consumed. */
  lemma MatchReencodes(buf: seq<byte>, i: nat)
    requires FrameAt(buf, i).Some?
    ensures WellFormed(FrameAt(buf, i).value)
    ensures buf[i..FrameAt(buf, i).value.end] == Encode(FrameAt(buf, i).value)
  {
    var m := FrameAt(buf, i).value;
    assert buf[i..m.end] == [buf[i], buf[i + 1]] + buf[i + 2..i + 3] + buf[i + 3..i + 6] + buf[i + 6..m.end];
  }

  /**
   * Decoding an encoded well-formed frame gives it back, whatever follows it,
   * provided a frame without a pen byte is not followed by a byte the greedy pen
   * group would take.
   */
  lemma EncodedFrameDecodes(m: FrameMatch, rest: seq<byte>)
    requires WellFormed(m) && m.start == 0
    requires m.penBattery == [] ==> rest == [] || rest[0] == Newline
    ensures FrameAt(Encode(m) + rest, 0) == Some(m)
  {
    var buf := Encode(m) + rest;
    assert buf[0] == m.marker && buf[1] == 0 && buf[2] == m.caseBattery[0];
    assert forall k :: 0 <= k < 3 ==> buf[3 + k] == m.unknown[k];
    assert MatchAt(buf, 0);
    var r := FrameAt(buf, 0).value;
    assert r.unknown == m.unknown;
    if m.penBattery == [] {
      assert r.penBattery == [];
    } else {
      assert buf[6] == m.penBattery[0] && PenPresentAt(buf, 0);
      assert r.penBattery == m.penBattery;
    }
    assert r.caseBattery == m.caseBattery;
  }

  /**
   * `re.search` from offset `i`: the first offset at or after `i` where the
   * pattern matches.
   */
  function SearchFrom(buf: seq<byte>, i: nat): (r: Option<FrameMatch>)
    requires i <= |buf|
    ensures r.Some? ==> i <= r.value.start && FrameAt(buf, r.value.start) == r
    ensures r.Some? ==> forall j :: i <= j < r.value.start ==> !MatchAt(buf, j)
    ensures r.None? ==> forall j: nat :: i <= j ==> !MatchAt(buf, j)
    decreases |buf| - i
  {
    var here := FrameAt(buf, i);
    if here.Some? then here
    else if i == |buf| then None
    else SearchFrom(buf, i + 1)
  }

  /**
   * `re.search(frame_regex, buf)`: the leftmost match, if any. Bytes before it
   * play no part; at most one match is reported.
   */
  function Search(buf: seq<byte>): (r: Option<FrameMatch>)
    ensures r.None? <==> forall j: nat :: !MatchAt(buf, j)
    ensures r.Some? ==> MatchAt(buf, r.value.start) && FrameAt(buf, r.value.start) == r
    ensures r.Some? ==> forall j :: 0 <= j < r.value.start ==> !MatchAt(buf, j)
  {
    SearchFrom(buf, 0)
  }

  /** Any match found sits inside the buffer and is a well-formed frame. */
  lemma SearchFindsFrame(buf: seq<byte>)
    requires Search(buf).Some?
    ensures WellFormed(Search(buf).value)
    ensures Search(buf).value.end <= |buf|
    ensures buf[Search(buf).value.start..Search(buf).value.end] == Encode(Search(buf).value)
  {
    MatchReencodes(buf, Search(buf).value.start);
  }

  /**
   * Junk before a frame is skipped: prefixing a buffer that starts with a match
   * by bytes in which the pattern cannot start moves the match but does not
   * change its groups.
   */
  lemma {:induction false} SearchSkipsJunk(junk: seq<byte>, buf: seq<byte>)
    requires MatchAt(buf, 0)
    requires forall k :: 0 <= k < |junk| ==> !StartByte(junk[k])
    ensures Search(junk + buf).Some?
    ensures Search(junk + buf).value.start == |junk|
    ensures Search(junk + buf).value.end == |junk| + Search(buf).value.end
    ensures Search(junk + buf).value.penBattery == Search(buf).value.penBattery
    ensures Search(junk + buf).value.caseBattery == Search(buf).value.caseBattery
    ensures Search(junk + buf).value.unknown == Search(buf).value.unknown
    ensures Search(junk + buf).value.marker == Search(buf).value.marker
  {
    var all := junk + buf;
    forall j: nat | j < |junk| ensures !MatchAt(all, j) {
      assert all[j] == junk[j];
    }
    assert all[|junk|..] == buf;
    assert MatchAt(all, |junk|) by {
      forall k | |junk| + 2 <= k < |junk| + 6 ensures Dot(all[k]) {
        assert all[k] == buf[k - |junk|];
        assert Dot(buf[k - |junk|]);
      }
    }
    var m := Search(all).value;
    assert m.start == |junk|;
    if |junk| + 6 < |all| {
      assert all[|junk| + 6] == buf[6];
    }
    assert all[|junk| + 3..|junk| + 6] == buf[3..6];
  }
}
