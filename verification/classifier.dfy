/** The sniff-line classifier `parseUARTData`: one line of device output in,
    a frame record or nothing out. A line is a frame line when it starts with
    one of the bracketed tags `[MGMT]`, `[DATA]`, `[CTRL]`, `[EXT]`, mentions
    none of the known status phrases, and names at least one address or an
    SSID. The regular expressions the classifier uses are modelled by their
    JavaScript matching semantics. */
module Classifier {
  import opened Wrappers
  import opened JsText

  /** The record the classifier builds, field for field. `frameType` and
      `frameSubtype` hold display names as text, `""` meaning "not found". */
  datatype FrameRecord = FrameRecord(
    frameType: string,
    frameSubtype: string,
    sourceMac: string,
    destMac: string,
    ssid: string,
    reasonCode: string,
    isPwnagotchi: bool)

  /** The four bracketed line tags of a frame line. */
  datatype FrameTag = Mgmt | Data | Ctrl | Ext

  function TagText(t: FrameTag): string {
    match t
    case Mgmt => "[MGMT]"
    case Data => "[DATA]"
    case Ctrl => "[CTRL]"
    case Ext => "[EXT]"
  }

  /** The frame-type name each tag maps to. */
  function TypeName(t: FrameTag): string {
    match t
    case Mgmt => "Management"
    case Data => "Data"
    case Ctrl => "Control"
    case Ext => "Extension"
  }

  /** The tag a line starts with, as `^\[(MGMT|DATA|CTRL|EXT)\]` finds it.
      At most one tag can start a line, so the answer is that tag. */
  function LeadingTag(line: string): (r: Option<FrameTag>)
    ensures forall t: FrameTag :: StartsWith(line, TagText(t)) <==> r == Some(t)
  {
    TagsExclusive(line);
    if StartsWith(line, "[MGMT]") then Some(Mgmt)
    else if StartsWith(line, "[DATA]") then Some(Data)
    else if StartsWith(line, "[CTRL]") then Some(Ctrl)
    else if StartsWith(line, "[EXT]") then Some(Ext)
    else None
  }

  /** The tags differ in their second character, so no line starts with two. */
  lemma TagsExclusive(line: string)
    ensures forall t: FrameTag, u: FrameTag ::
      StartsWith(line, TagText(t)) && StartsWith(line, TagText(u)) ==> t == u
  {
    forall t: FrameTag, u: FrameTag | StartsWith(line, TagText(t)) && StartsWith(line, TagText(u))
      ensures t == u
    {
      assert TagText(t)[1] == line[1] == TagText(u)[1];
    }
  }

  // ---------------------------------------------------------------------
  // Status-line denylist

  /** Phrases that mark a line as device status rather than a frame. */
  const StatusMarkers: seq<string> := [
    "Connected to UART", "#calibration_ok", "[INFO]", "[CMD]",
    "Initializing", "initialized", "Starting", "Stopping", "> "]

  predicate IsStatusLine(line: string) {
    exists k | 0 <= k < |StatusMarkers| :: Includes(line, StatusMarkers[k])
  }

  // ---------------------------------------------------------------------
  // Subtype keywords

  /** (keyword, subtype name) pairs in the order the classifier tests them. */
  const SubtypeRules: seq<(string, string)> := [
    ("Beacon", "Beacon"),
    ("Probe Request", "Probe Request"),
    ("Probe Response", "Probe Response"),
    ("Deauth", "Deauthentication"),
    ("Disassoc", "Disassociation"),
    ("EAPOL", "EAPOL"),
    ("Authentication", "Authentication"),
    ("Association Request", "Association Request"),
    ("Association Response", "Association Response")]

  /** The index of the first rule at or after `k` whose keyword the line contains. */
  function FirstRule(line: string, k: nat): (r: Option<nat>)
    requires k <= |SubtypeRules|
    ensures r.Some? ==> k <= r.value < |SubtypeRules| && Includes(line, SubtypeRules[r.value].0)
    ensures r.Some? ==> forall j | k <= j < r.value :: !Includes(line, SubtypeRules[j].0)
    ensures r.None? ==> forall j | k <= j < |SubtypeRules| :: !Includes(line, SubtypeRules[j].0)
    decreases |SubtypeRules| - k
  {
    if k == |SubtypeRules| then None
    else if Includes(line, SubtypeRules[k].0) then Some(k)
    else FirstRule(line, k + 1)
  }

  /** The subtype name of a line: the name of the first rule, in priority
      order, whose keyword the line contains; `""` when it contains none. */
  function Subtype(line: string): (r: string)
    ensures r != "" <==> exists j | 0 <= j < |SubtypeRules| :: Includes(line, SubtypeRules[j].0)
    ensures forall j | 0 <= j < |SubtypeRules| ::
      Includes(line, SubtypeRules[j].0) && (forall i | 0 <= i < j :: !Includes(line, SubtypeRules[i].0))
      ==> r == SubtypeRules[j].1
  {
    match FirstRule(line, 0)
    case Some(j) => SubtypeRules[j].1
    case None => ""
  }

  // ---------------------------------------------------------------------
  // MAC addresses: /([0-9A-Fa-f]{2}[:-]){5}([0-9A-Fa-f]{2})/g

  const MacLength: nat := 17

  predicate IsMacSeparator(c: char) {
    c == ':' || c == '-'
  }

  /** `t` is six hex pairs joined by `:` or `-` (separators may be mixed). */
  predicate IsMacText(t: string) {
    && |t| == MacLength
    && forall k | 0 <= k < MacLength ::
         if k % 3 == 2 then IsMacSeparator(t[k]) else IsHexDigit(t[k])
  }

  /** The MAC pattern matches the line at index `i`. The pattern has a single
      fixed length, so a match at `i` is exactly a MAC-shaped window there. */
  predicate MacAt(s: string, i: int) {
    0 <= i && i + MacLength <= |s| && IsMacText(s[i..i + MacLength])
  }

  /** No MAC match starts in `[a, b)`. */
  predicate NoMacIn(s: string, a: int, b: int) {
    forall q | a <= q < b :: !MacAt(s, q)
  }

  /** `p` is the leftmost MAC match at or after `from`. */
  predicate IsFirstMacFrom(s: string, from: int, p: int) {
    from <= p && MacAt(s, p) && NoMacIn(s, from, p)
  }

  /** `q` is the leftmost MAC match starting after the match at `p` ends. */
  predicate IsFirstMacAfter(s: string, p: int, q: int) {
    IsFirstMacFrom(s, p + MacLength, q)
  }

  /** The match positions a global `match` reports when scanning from
      `lastIndex`: the leftmost match, then the scan resumes right after it. */
  function MacScan(s: string, lastIndex: nat): (ps: seq<nat>)
    ensures forall k | 0 <= k < |ps| :: lastIndex <= ps[k] && MacAt(s, ps[k])
    ensures |ps| == 0 ==> NoMacIn(s, lastIndex, |s|)
    ensures |ps| > 0 ==> IsFirstMacFrom(s, lastIndex, ps[0])
    decreases |s| - lastIndex
  {
    if lastIndex + MacLength > |s| then []
    else if MacAt(s, lastIndex) then [lastIndex] + MacScan(s, lastIndex + MacLength)
    else MacScan(s, lastIndex + 1)
  }

  /** After the first match the scan continues right behind it, so matches
      never overlap and the second match is the leftmost one past the first. */
  lemma {:induction false} MacScanResumes(s: string, lastIndex: nat)
    requires |MacScan(s, lastIndex)| > 0
    ensures MacScan(s, lastIndex)[1..] == MacScan(s, MacScan(s, lastIndex)[0] + MacLength)
    decreases |s| - lastIndex
  {
    if !MacAt(s, lastIndex) {
      MacScanResumes(s, lastIndex + 1);
    }
  }

  /** `source_mac`: the text of the first MAC match, `""` when there is none. */
  function SourceMac(line: string): (r: string)
    ensures r == "" <==> NoMacIn(line, 0, |line|)
    ensures forall p :: IsFirstMacFrom(line, 0, p) ==> r == line[p..p + MacLength]
    ensures r != "" ==> IsMacText(r)
  {
    var ps := MacScan(line, 0);
    if |ps| >= 1 then line[ps[0]..ps[0] + MacLength] else ""
  }

  /** `dest_mac`: the text of the second MAC match, the leftmost one that
      starts after the first match ends; `""` when there is none. */
  function DestMac(line: string): (r: string)
    ensures NoMacIn(line, 0, |line|) ==> r == ""
    ensures forall p :: IsFirstMacFrom(line, 0, p) ==>
      && (r == "" <==> NoMacIn(line, p + MacLength, |line|))
      && forall q :: IsFirstMacAfter(line, p, q) ==> r == line[q..q + MacLength]
    ensures r != "" ==> IsMacText(r)
  {
    var ps := MacScan(line, 0);
    if |ps| == 0 then ""
    else
      MacScanResumes(line, 0);
      if |ps| >= 2 then line[ps[1]..ps[1] + MacLength] else ""
  }

  // ---------------------------------------------------------------------
  // Field extraction: /SSID:\s*([^\n]+)/ and /Reason:\s*(\d+)/

  /** A match of  marker \s* (cls+) : the marker at `at`, the capture group
      spanning `[start, end)`. */
  datatype Capture = Capture(at: nat, start: nat, end: nat)

  predicate FieldMatch(s: string, marker: string, cls: char -> bool, m: Capture) {
    && OccursAt(s, marker, m.at)
    && m.at + |marker| <= m.start < m.end <= |s|
    && AllIn(s, m.at + |marker|, m.start, IsJsSpace)
    && AllIn(s, m.start, m.end, cls)
  }

  /** A backtracking matcher reaches `m` no later than `n`: it tries start
      positions left to right, then the greedy `\s*` longest first, then the
      greedy capture longest first. */
  predicate TriedFirst(m: Capture, n: Capture) {
    || m.at < n.at
    || (m.at == n.at && m.start > n.start)
    || (m.at == n.at && m.start == n.start && m.end >= n.end)
  }

  /** `m` is the match `exec` reports when the search starts at `from`. */
  ghost predicate IsExecResult(s: string, marker: string, cls: char -> bool, from: int, m: Capture) {
    && from <= m.at
    && FieldMatch(s, marker, cls, m)
    && forall n: Capture :: from <= n.at && FieldMatch(s, marker, cls, n) ==> TriedFirst(m, n)
  }

  /** The greatest index in `[lo, hi)` whose character is in `cls`. */
  function LastIn(s: string, lo: nat, hi: nat, cls: char -> bool): (r: Option<nat>)
    requires lo <= hi <= |s|
    ensures r.Some? ==> lo <= r.value < hi && cls(s[r.value])
    ensures r.Some? ==> forall k | r.value < k < hi :: !cls(s[k])
    ensures r.None? ==> forall k | lo <= k < hi :: !cls(s[k])
    decreases hi - lo
  {
    if lo == hi then None
    else if cls(s[hi - 1]) then Some(hi - 1)
    else LastIn(s, lo, hi - 1, cls)
  }

  /** `exec` of  marker \s* (cls+)  with the search starting at `from`. */
  function ExecFrom(s: string, marker: string, cls: char -> bool, from: nat): (r: Option<Capture>)
    requires marker != ""
    ensures r.Some? ==> IsExecResult(s, marker, cls, from, r.value)
    ensures r.None? ==> forall n :: FieldMatch(s, marker, cls, n) ==> n.at < from
    decreases |s| - from
  {
    match IndexOf(s, marker, from)
    case None => None
    case Some(i) =>
      var p := i + |marker|;
      var j := RunEnd(s, p, IsJsSpace);
      var hi := if j < |s| then j + 1 else j;
      match LastIn(s, p, hi, cls)
      case Some(c) =>
        var m := Capture(i, c, RunEnd(s, c, cls));
        ExecResultHere(s, marker, cls, from, m, j);
        Some(m)
      case None =>
        NoMatchHere(s, marker, cls, i, j);
        ExecFrom(s, marker, cls, i + 1)
  }

  /** `exec` of  marker \s* (cls+)  over the whole string: the reported
      match when there is one, `None` exactly when nothing matches. */
  function Exec(s: string, marker: string, cls: char -> bool): (r: Option<Capture>)
    requires marker != ""
    ensures r.None? <==> forall n: Capture :: !FieldMatch(s, marker, cls, n)
    ensures forall m: Capture :: IsExecResult(s, marker, cls, 0, m) <==> r == Some(m)
  {
    var r := ExecFrom(s, marker, cls, 0);
    forall m: Capture | IsExecResult(s, marker, cls, 0, m)
      ensures r == Some(m)
    {
      assert FieldMatch(s, marker, cls, m);
      assert TriedFirst(r.value, m) && TriedFirst(m, r.value);
    }
    r
  }

  /** A capture start at occurrence `i` lies within the whitespace run. */
  lemma CaptureStartInRun(s: string, marker: string, cls: char -> bool, n: Capture, j: nat)
    requires FieldMatch(s, marker, cls, n)
    requires j == RunEnd(s, n.at + |marker|, IsJsSpace)
    ensures n.start <= j && n.start < |s| && cls(s[n.start])
  {
    RunEndMaximal(s, n.at + |marker|, n.start, IsJsSpace);
  }

  lemma ExecResultHere(s: string, marker: string, cls: char -> bool, from: nat, m: Capture, j: nat)
    requires marker != ""
    requires IndexOf(s, marker, from) == Some(m.at)
    requires j == RunEnd(s, m.at + |marker|, IsJsSpace)
    requires LastIn(s, m.at + |marker|, if j < |s| then j + 1 else j, cls) == Some(m.start)
    requires m.end == RunEnd(s, m.start, cls)
    ensures IsExecResult(s, marker, cls, from, m)
  {
    var p := m.at + |marker|;
    assert AllIn(s, p, m.start, IsJsSpace);
    assert FieldMatch(s, marker, cls, m);
    forall n: Capture | from <= n.at && FieldMatch(s, marker, cls, n)
      ensures TriedFirst(m, n)
    {
      if n.at == m.at {
        CaptureStartInRun(s, marker, cls, n, j);
        if n.start == m.start {
          RunEndMaximal(s, m.start, n.end, cls);
        }
      }
    }
  }

  lemma NoMatchHere(s: string, marker: string, cls: char -> bool, i: nat, j: nat)
    requires marker != "" && OccursAt(s, marker, i)
    requires j == RunEnd(s, i + |marker|, IsJsSpace)
    requires LastIn(s, i + |marker|, if j < |s| then j + 1 else j, cls).None?
    ensures forall n :: FieldMatch(s, marker, cls, n) ==> n.at != i
  {
    forall n | FieldMatch(s, marker, cls, n) && n.at == i
      ensures false
    {
      CaptureStartInRun(s, marker, cls, n, j);
    }
  }

  /** `ssid`: the `SSID:\s*([^\n]+)` capture group of the first match,
      trimmed; `""` when the pattern does not match. */
  function SsidField(line: string): (r: string)
    ensures (forall n: Capture :: !FieldMatch(line, "SSID:", NotNewline, n)) ==> r == ""
    ensures forall m: Capture :: IsExecResult(line, "SSID:", NotNewline, 0, m) ==>
      r == Trim(line[m.start..m.end])
    ensures AllIn(r, 0, |r|, NotNewline)
  {
    match Exec(line, "SSID:", NotNewline)
    case Some(m) =>
      TrimKeepsClass(line[m.start..m.end], NotNewline);
      Trim(line[m.start..m.end])
    case None => ""
  }

  /** A non-empty `ssid` neither starts nor ends with whitespace. */
  lemma SsidTrimmed(line: string)
    ensures var r := SsidField(line);
      r != "" ==> !IsJsSpace(r[0]) && !IsJsSpace(r[|r| - 1])
  {
    match Exec(line, "SSID:", NotNewline)
    case Some(m) =>
      var t := Trim(line[m.start..m.end]);
      assert SsidField(line) == t;
    case None =>
  }

  /** `reason_code`: the digits of the `Reason:\s*(\d+)` capture group of the
      first match; `""` when the pattern does not match. */
  function ReasonField(line: string): (r: string)
    ensures r == "" <==> forall n: Capture :: !FieldMatch(line, "Reason:", IsDigit, n)
    ensures forall m: Capture :: IsExecResult(line, "Reason:", IsDigit, 0, m) ==>
      r == line[m.start..m.end]
    ensures AllIn(r, 0, |r|, IsDigit)
  {
    match Exec(line, "Reason:", IsDigit)
    case Some(m) => line[m.start..m.end]
    case None => ""
  }

  // ---------------------------------------------------------------------
  // The classifier

  /** A record is kept only when it has a type and names an address or an SSID. */
  predicate IsReportable(rec: FrameRecord) {
    rec.frameType != "" && (rec.sourceMac != "" || rec.destMac != "" || rec.ssid != "")
  }

  /** The record built for a tagged, non-status line. */
  function Extract(line: string, t: FrameTag): FrameRecord {
    FrameRecord(
      frameType := TypeName(t),
      frameSubtype := Subtype(line),
      sourceMac := SourceMac(line),
      destMac := DestMac(line),
      ssid := SsidField(line),
      reasonCode := ReasonField(line),
      isPwnagotchi := false)
  }

  /** `parseUARTData(line)`; `None` stands for the source's `null`. A record
      comes back exactly for a tagged line that mentions no status phrase and
      has an address (`MacPresence`: a MAC match anywhere) or an SSID. */
  function ParseUartData(line: string): (r: Option<FrameRecord>)
    ensures r.Some? <==>
      && LeadingTag(line).Some?
      && !IsStatusLine(line)
      && (SourceMac(line) != "" || SsidField(line) != "")
    ensures r.Some? ==> IsReportable(r.value) && !r.value.isPwnagotchi
    ensures r.Some? ==> r.value.frameType == TypeName(LeadingTag(line).value)
    ensures r.Some? ==>
      && r.value.frameSubtype == Subtype(line)
      && r.value.sourceMac == SourceMac(line)
      && r.value.destMac == DestMac(line)
      && r.value.ssid == SsidField(line)
      && r.value.reasonCode == ReasonField(line)
  {
    match LeadingTag(line)
    case None => None
    case Some(t) =>
      if IsStatusLine(line) then None
      else
        var rec := Extract(line, t);
        ReportableIff(line, t);
        if IsReportable(rec) then Some(rec) else None
  }

  /** A tagged line's record is kept exactly when the line has an address or
      a non-empty SSID; the destination address and the reason code never
      decide it on their own. */
  lemma ReportableIff(line: string, t: FrameTag)
    ensures IsReportable(Extract(line, t)) <==> SourceMac(line) != "" || SsidField(line) != ""
  {
    MacPresence(line);
  }

  /** The first address is present exactly when the line has a MAC match,
      and a second address is never present without a first. */
  lemma MacPresence(line: string)
    ensures SourceMac(line) != "" <==> exists q :: MacAt(line, q)
    ensures DestMac(line) != "" ==> SourceMac(line) != ""
  {
    if SourceMac(line) == "" {
      assert NoMacIn(line, 0, |line|);
    }
  }
}
