// Howdy's configuration file: the reader and the writer of [video] device_path. They are two
// separately written line scanners, and the laws below say that they agree.
module HowdyConfig {
  import opened Text

  /** A section header: the whole trimmed line in brackets. */
  predicate IsHeader(line: string) {
    var t := Trim(line);
    StartsWith(t, "[") && EndsWith(t, "]") && |t| >= 2
  }

  function HeaderName(line: string): string
    requires IsHeader(line)
  {
    var t := Trim(line);
    Lower(Trim(t[1..|t| - 1]))
  }

  predicate IsVideoHeader(line: string) {
    IsHeader(line) && HeaderName(line) == "video"
  }

  predicate IsComment(line: string) {
    var t := Trim(line);
    t == "" || StartsWith(t, "#") || StartsWith(t, ";")
  }

  predicate HasKey(line: string) {
    '=' in Trim(line)
  }

  /** The key of a `key = value` line, in lower case. */
  function KeyOf(line: string): string
    requires HasKey(line)
  {
    var t := Trim(line);
    Lower(Trim(t[..Find(t, '=')]))
  }

  function Uncommented(s: string): string {
    var i, j := Find(s, '#'), Find(s, ';');
    s[..if i <= j then i else j]
  }

  function ValueOf(line: string): string
    requires HasKey(line)
  {
    var t := Trim(line);
    Trim(Uncommented(t[Find(t, '=') + 1..]))
  }

  predicate IsDeviceLine(line: string) {
    HasKey(line) && KeyOf(line) == "device_path"
  }

  // ---------------------------------------------------------------- what a file says

  // The meaning of a file without a scan: which line is under which header, and which value it
  // assigns.

  /** A line in brackets that opens this section. */
  ghost predicate Opens(line: string, section: string) {
    exists inner :: Trim(line) == "[" + inner + "]" && Lower(Trim(inner)) == section
  }

  ghost predicate OpensSome(line: string) {
    exists inner :: Trim(line) == "[" + inner + "]"
  }

  /** A text is a key, an equals sign, a value and, if it is not empty, a comment. */
  predicate Splits(text: string, k: string, v: string, comment: string) {
    && text == k + "=" + v + comment && '=' !in k && '#' !in v && ';' !in v
    && (comment == "" || comment[0] == '#' || comment[0] == ';')
  }

  /** `key = value`, cut at its first comment character, without outer white space. */
  ghost predicate Assigns(line: string, key: string, value: string) {
    && !OpensSome(line)
    && exists k, v, comment ::
         Splits(Trim(line), k, v, comment) && Lower(Trim(k)) == key && Trim(v) == value
  }

  /** The last header ahead of line `i` opens this section. */
  ghost predicate Under(ls: seq<string>, i: nat, section: string)
    requires i <= |ls|
  {
    exists h :: 0 <= h < i && Opens(ls[h], section) && forall j :: h < j < i ==> !OpensSome(ls[j])
  }

  /** Line `i` gives [video] device_path this value, which is not empty. */
  ghost predicate Gives(ls: seq<string>, i: nat, value: string) {
    i < |ls| && Under(ls, i, "video") && value != "" && Assigns(ls[i], "device_path", value)
  }

  /** The first value given from line `i` on, if there is one. */
  ghost predicate FirstGiven(ls: seq<string>, i: nat, r: Option<string>) {
    match r
    case None => forall k: nat, v :: i <= k ==> !Gives(ls, k, v)
    case Some(value) =>
      exists k: nat :: i <= k && Gives(ls, k, value) && forall j: nat, v :: i <= j < k ==> !Gives(ls, j, v)
  }

  lemma OpensExactly(line: string, section: string)
    ensures IsHeader(line) <==> OpensSome(line)
    ensures Opens(line, section) <==> IsHeader(line) && HeaderName(line) == section
  {
    hide Trim, Lower;
    var t := Trim(line);
    if IsHeader(line) {
      assert t[0] == '[' by {
        assert t[..1] == "[";
      }
      assert t[|t| - 1] == ']' by {
        assert t[|t| - 1..] == "]";
      }
      assert t == "[" + t[1..|t| - 1] + "]";
    }
    forall inner | t == "[" + inner + "]" ensures IsHeader(line) && inner == t[1..|t| - 1] {
      assert t[..1] == "[" && t[|t| - 1..] == "]";
    }
  }

  lemma UncommentedExactly(s: string, v: string)
    ensures v == Uncommented(s) <==>
      && |v| <= |s| && v == s[..|v|] && '#' !in v && ';' !in v
      && (|v| == |s| || s[|v|] == '#' || s[|v|] == ';')
  {
    UncommentedIsPart(s);
    var i, j := Find(s, '#'), Find(s, ';');
    if |v| <= |s| && v == s[..|v|] && '#' !in v && ';' !in v && (|v| == |s| || s[|v|] == '#' || s[|v|] == ';') {
      forall k | 0 <= k < |v| ensures s[k] != '#' && s[k] != ';' {
        assert v[k] in v;
      }
    }
  }

  /** Only one way to take an assignment apart. */
  lemma OneAssignment(t: string, k: string, v: string, comment: string)
    requires Splits(t, k, v, comment)
    ensures '=' in t && k == t[..Find(t, '=')] && v == Uncommented(t[Find(t, '=') + 1..])
  {
    hide Uncommented, Find;
    assert t[|k|] == '=';
    FindUnique(t, '=', |k|);
    assert t[|k| + 1..] == v + comment;
    UncommentedExactly(v + comment, v);
  }

  lemma AssignsExactly(line: string, key: string, value: string)
    ensures Assigns(line, key, value) <==>
      !IsHeader(line) && HasKey(line) && KeyOf(line) == key && ValueOf(line) == value
  {
    OpensExactly(line, "");
    hide Trim, Lower, IsHeader, OpensSome, Opens, Uncommented, Find;
    var t := Trim(line);
    if HasKey(line) {
      var i := Find(t, '=');
      var k, s := t[..i], t[i + 1..];
      var v := Uncommented(s);
      UncommentedExactly(s, v);
      assert Splits(t, k, v, s[|v|..]);
    }
    if Assigns(line, key, value) {
      var k, v, comment :| Splits(t, k, v, comment) && Lower(Trim(k)) == key && Trim(v) == value;
      OneAssignment(t, k, v, comment);
    }
  }

  /** A comment assigns no device. */
  lemma CommentsAssignNothing(line: string)
    ensures IsComment(line) && HasKey(line) ==> KeyOf(line) != "device_path"
    ensures IsComment(line) ==> !IsHeader(line)
  {
    hide Lower;
    HeaderIsNoComment(line);
    var t := Trim(line);
    TrimIsTrimmed(line);
    hide Trim;
    if IsComment(line) && HasKey(line) {
      var i := Find(t, '=');
      assert t[0] == '#' || t[0] == ';' by {
        assert StartsWith(t, "#") ==> t[..1][0] == '#';
        assert StartsWith(t, ";") ==> t[..1][0] == ';';
      }
      assert t[..i][0] == t[0] && !IsWhitespace(t[..i][0]);
      TrimKeepsHead(t[..i]);
      assert KeyOf(line)[0] == LowerChar(t[0]) == t[0];
    }
  }

  lemma UnderNext(ls: seq<string>, i: nat)
    requires i < |ls|
    ensures OpensSome(ls[i]) ==> (Under(ls, i + 1, "video") <==> Opens(ls[i], "video"))
    ensures !OpensSome(ls[i]) ==> (Under(ls, i + 1, "video") <==> Under(ls, i, "video"))
  {
    hide OpensSome, Opens;
    if Opens(ls[i], "video") {
      OpensIsSome(ls[i], "video");
    }
  }

  lemma OpensIsSome(line: string, section: string)
    requires Opens(line, section)
    ensures OpensSome(line)
  {
    hide Trim, Lower;
  }

  // ---------------------------------------------------------------- the reader

  /** The first non-empty value of a key in a section; `current` is the section being read. */
  function Lookup(ls: seq<string>, current: string, section: string, key: string): Option<string> {
    if ls == [] then None
    else if IsComment(ls[0]) then Lookup(ls[1..], current, section, key)
    else if IsHeader(ls[0]) then Lookup(ls[1..], HeaderName(ls[0]), section, key)
    else if current == section && HasKey(ls[0]) && KeyOf(ls[0]) == key && ValueOf(ls[0]) != ""
    then Some(ValueOf(ls[0]))
    else Lookup(ls[1..], current, section, key)
  }

  /** No section is open before the first header; no header has this name. */
  const NOWHERE := "\n"

  function VideoDevice(content: string): Option<string> {
    Lookup(Lines(content), NOWHERE, "video", "device_path")
  }

  /** From any line on, the reader finds the first value that the file gives. */
  lemma {:induction false} LookupIsFirst(ls: seq<string>, i: nat, current: string)
    requires i <= |ls| && (current == "video" <==> Under(ls, i, "video"))
    ensures FirstGiven(ls, i, Lookup(ls[i..], current, "video", "device_path"))
    decreases |ls| - i
  {
    hide IsComment, HasKey, KeyOf, ValueOf, IsHeader, HeaderName, Opens, OpensSome, Under, Assigns;
    if i < |ls| {
      var l := ls[i];
      OpensExactly(l, "video");
      CommentsAssignNothing(l);
      forall v ensures Assigns(l, "device_path", v) <==>
        !IsHeader(l) && HasKey(l) && KeyOf(l) == "device_path" && ValueOf(l) == v
      {
        AssignsExactly(l, "device_path", v);
      }
      UnderNext(ls, i);
      assert ls[i..][0] == l && ls[i..][1..] == ls[i + 1..];
      var next := if IsHeader(l) then HeaderName(l) else current;
      LookupIsFirst(ls, i + 1, next);
      if !IsComment(l) && !IsHeader(l) && current == "video"
         && HasKey(l) && KeyOf(l) == "device_path" && ValueOf(l) != "" {
        assert Gives(ls, i, ValueOf(l));
      } else {
        assert forall v :: !Gives(ls, i, v);
        FirstFromNext(ls, i, Lookup(ls[i + 1..], next, "video", "device_path"));
      }
    }
  }

  lemma FirstFromNext(ls: seq<string>, i: nat, r: Option<string>)
    requires FirstGiven(ls, i + 1, r) && forall v :: !Gives(ls, i, v)
    ensures FirstGiven(ls, i, r)
  {
    hide Gives;
  }

  /** There is only one answer. */
  lemma FirstIsUnique(ls: seq<string>, i: nat, a: Option<string>, b: Option<string>)
    requires FirstGiven(ls, i, a) && FirstGiven(ls, i, b)
    ensures a == b
  {
    forall l, v, w | Assigns(l, "device_path", v) && Assigns(l, "device_path", w) ensures v == w {
      AssignsExactly(l, "device_path", v);
      AssignsExactly(l, "device_path", w);
    }
    hide Assigns, Under;
    if a.Some? && b.Some? {
      var k: nat :| i <= k && Gives(ls, k, a.value) && forall j: nat, v :: i <= j < k ==> !Gives(ls, j, v);
      var m: nat :| i <= m && Gives(ls, m, b.value) && forall j: nat, v :: i <= j < m ==> !Gives(ls, j, v);
      assert k == m;
    }
  }

  lemma VideoDeviceIsFirst(content: string)
    ensures FirstGiven(Lines(content), 0, VideoDevice(content))
  {
    hide Lines, FirstGiven, Lookup;
    var ls := Lines(content);
    assert ls[0..] == ls && NOWHERE[0] != "video"[0];
    LookupIsFirst(ls, 0, NOWHERE);
  }

  /** `parse_video_device_path`: the first non-empty value that a line under a [video] header assigns
      to device_path. */
  method ParseVideoDevicePath(content: string) returns (r: Option<string>)
    ensures r == VideoDevice(content) && FirstGiven(Lines(content), 0, r)
  {
    VideoDeviceIsFirst(content);
    hide FirstGiven;
    hide IsHeader, HeaderName, IsComment, KeyOf, ValueOf, HasKey, Lines, Trim;
    var ls := Lines(content);
    var inVideo := false;
    ghost var current := NOWHERE;
    for i := 0 to |ls|
      invariant inVideo <==> current == "video"
      invariant VideoDevice(content) == Lookup(ls[i..], current, "video", "device_path")
    {
      var line := ls[i];
      assert ls[i..][1..] == ls[i + 1..];
      if IsComment(line) {
        continue;
      }
      if IsHeader(line) {
        inVideo := HeaderName(line) == "video";
        current := HeaderName(line);
        continue;
      }
      if !inVideo || !HasKey(line) {
        continue;
      }
      if KeyOf(line) == "device_path" {
        var value := ValueOf(line);
        if value != "" {
          return Some(value);
        }
      }
    }
    return None;
  }

  // ---------------------------------------------------------------- the writer

  function DeviceLine(device: string): string {
    "device_path = " + device
  }

  /** The state of the writer's scan. */
  datatype Scan = Scan(inVideo: bool, sawVideo: bool, replaced: bool)

  const SCAN_START := Scan(false, false, false)

  /** Inside a replacement, every device line of [video] becomes the new one; the first [video]
      section without one gets it at its end. */
  function ReplaceLines(ls: seq<string>, device: string, s: Scan): seq<string> {
    if ls == [] then
      if s.sawVideo && !s.replaced then [DeviceLine(device)] else []
    else if IsHeader(ls[0]) then
      (if s.inVideo && !s.replaced then [DeviceLine(device)] else [])
      + [ls[0]] + ReplaceLines(ls[1..], device, AtHeader(s, ls[0]))
    else if s.inVideo && IsDeviceLine(ls[0]) then
      [DeviceLine(device)] + ReplaceLines(ls[1..], device, s.(replaced := true))
    else [ls[0]] + ReplaceLines(ls[1..], device, s)
  }

  function AtHeader(s: Scan, header: string): Scan {
    Scan(IsVideoHeader(header), s.sawVideo || IsVideoHeader(header), s.replaced || s.inVideo)
  }

  ghost predicate HasVideo(ls: seq<string>) {
    exists i :: 0 <= i < |ls| && IsVideoHeader(ls[i])
  }

  function ReplaceText(content: string, device: string): string {
    Unlines(ReplaceLines(Lines(content), device, SCAN_START))
  }

  /** The writer's invariant: a [video] section that was seen and not served is still open. */
  predicate GoodScan(s: Scan) {
    (s.sawVideo && !s.replaced ==> s.inVideo) && (s.inVideo ==> s.sawVideo)
  }

  lemma VideoSnoc(a: seq<string>, line: string)
    ensures HasVideo(a + [line]) <==> HasVideo(a) || IsVideoHeader(line)
  {
    hide IsVideoHeader;
    assert (a + [line])[|a|] == line;
    assert forall i :: 0 <= i < |a| ==> (a + [line])[i] == a[i];
  }

  /** What one line contributes to the new text. */
  function Written(line: string, device: string, s: Scan): seq<string> {
    if IsHeader(line) then (if s.inVideo && !s.replaced then [DeviceLine(device)] else []) + [line]
    else if s.inVideo && IsDeviceLine(line) then [DeviceLine(device)]
    else [line]
  }

  function After(line: string, s: Scan): Scan {
    if IsHeader(line) then AtHeader(s, line)
    else if s.inVideo && IsDeviceLine(line) then s.(replaced := true)
    else s
  }

  lemma ReplaceNext(ls: seq<string>, i: nat, device: string, s: Scan)
    requires i < |ls|
    ensures ReplaceLines(ls[i..], device, s)
         == Written(ls[i], device, s) + ReplaceLines(ls[i + 1..], device, After(ls[i], s))
  {
  }

  lemma Absorb(out: seq<string>, now: seq<string>, rest: seq<string>)
    ensures (out + now) + rest == out + (now + rest)
  {
  }

  lemma ReplaceEnd(device: string)
    ensures forall s: Scan ::
              ReplaceLines([], device, s) == if s.sawVideo && !s.replaced then [DeviceLine(device)] else []
  {
  }

  /** Fails exactly when the content has no [video] header. */
  method ReplaceVideoDevicePath(content: string, device: string) returns (r: Option<string>)
    ensures r == None <==> !HasVideo(Lines(content))
    ensures r.Some? ==> r.value == ReplaceText(content, device)
  {
    hide IsHeader, IsVideoHeader, IsDeviceLine, Lines, DeviceLine, Unlines;
    var ls := Lines(content);
    var out: seq<string> := [];
    var inVideo, sawVideo, replaced := false, false, false;
    assert ls[..0] == [] && ls[0..] == ls;
    assert [] + ReplaceLines(ls, device, SCAN_START) == ReplaceLines(ls, device, SCAN_START);
    ReplaceEnd(device);
    hide ReplaceLines;
    for i := 0 to |ls|
      invariant GoodScan(Scan(inVideo, sawVideo, replaced))
      invariant sawVideo == HasVideo(ls[..i])
      invariant out + ReplaceLines(ls[i..], device, Scan(inVideo, sawVideo, replaced))
             == ReplaceLines(ls, device, SCAN_START)
    {
      var raw := ls[i];
      ghost var before, s := out, Scan(inVideo, sawVideo, replaced);
      assert ls[..i + 1] == ls[..i] + [raw];
      VideoSnoc(ls[..i], raw);
      ReplaceNext(ls, i, device, s);
      Absorb(out, Written(raw, device, s), ReplaceLines(ls[i + 1..], device, After(raw, s)));
      if IsHeader(raw) {
        if inVideo && !replaced {
          out := out + [DeviceLine(device)];
          replaced := true;
        }
        inVideo := IsVideoHeader(raw);
        sawVideo := sawVideo || inVideo;
        out := out + [raw];
        assert out == before + Written(raw, device, s);
        continue;
      }
      NotAVideoHeader(raw);
      if inVideo && IsDeviceLine(raw) {
        out := out + [DeviceLine(device)];
        replaced := true;
        continue;
      }
      out := out + [raw];
    }
    assert ls[..|ls|] == ls && ls[|ls|..] == [];
    if !sawVideo {
      return None;
    }
    if !replaced {
      out := out + [DeviceLine(device)];
    }
    assert out == ReplaceLines(ls, device, SCAN_START);
    return Some(Unlines(out));
  }

  lemma NotAVideoHeader(line: string)
    ensures !IsHeader(line) ==> !IsVideoHeader(line)
  {
  }

  // ---------------------------------------------------------------- the device line

  /** The device names that survive a round trip through the file. */
  predicate Clean(device: string) {
    device != "" && Trimmed(device) && '#' !in device && ';' !in device && '\n' !in device
  }

  const KEY := "device_path"

  lemma NothingToTrimStart(s: string)
    requires s != "" && !IsWhitespace(s[0])
    ensures TrimStart(s) == s
  {
  }

  lemma DeviceLineTrim(device: string)
    ensures |Trim(DeviceLine(device))| >= 13 && Trim(DeviceLine(device))[..13] == KEY + " ="
    ensures device != "" && Trimmed(device) ==> Trim(DeviceLine(device)) == DeviceLine(device)
  {
    hide TrimStart, TrimEnd;
    var l := DeviceLine(device);
    assert l == (KEY + " =") + (" " + device);
    TrimEndKeepsPrefix(KEY + " =", " " + device);
    NothingToTrimStart(l);
    if device != "" && Trimmed(device) {
      assert l[|l| - 1] == device[|device| - 1];
      TrimOfTrimmed(l);
    }
  }

  /** The written line is read as a device line, whatever the device. */
  lemma DeviceLineIsDevice(device: string)
    ensures !IsHeader(DeviceLine(device)) && !IsComment(DeviceLine(device)) && IsDeviceLine(DeviceLine(device))
  {
    DeviceLineTrim(device);
    var t := Trim(DeviceLine(device));
    hide Trim, DeviceLine;
    assert t[..13][0] == 'd' && t[..13][12] == '=';
    assert t[0] == 'd' && t[12] == '=';
    assert forall j :: 0 <= j < 12 ==> t[j] == t[..13][j] && t[j] != '=';
    FindUnique(t, '=', 12);
    assert t[..12] == KEY + [' '] by {
      assert t[..12] == t[..13][..12];
    }
    KeyTrim();
    assert Lower(KEY) == KEY;
  }

  lemma KeyTrim()
    ensures Trim(KEY + [' ']) == KEY
  {
    TrimSnoc(KEY, ' ');
    TrimOfTrimmed(KEY);
  }

  lemma DeviceLineValue(device: string)
    requires Clean(device)
    ensures HasKey(DeviceLine(device)) && ValueOf(DeviceLine(device)) == device
  {
    hide Trim, DeviceLine, IsHeader, IsComment, Uncommented, Find;
    DeviceLineIsDevice(device);
    DeviceLineTrim(device);
    DeviceLineSplit(device);
    NothingToUncomment(device);
    LeadingBlank(device);
  }

  lemma DeviceLineSplit(device: string)
    ensures var t := DeviceLine(device); '=' in t && Find(t, '=') == 12 && t[13..] == " " + device
  {
    var t := DeviceLine(device);
    assert t[12] == '=' && forall j :: 0 <= j < 12 ==> t[j] != '=';
    FindUnique(t, '=', 12);
  }

  lemma NothingToUncomment(device: string)
    requires Clean(device)
    ensures Uncommented(" " + device) == " " + device
  {
  }

  lemma LeadingBlank(s: string)
    requires Trimmed(s)
    ensures Trim(" " + s) == s
  {
    assert (" " + s)[1..] == s;
    TrimOfTrimmed(s);
    assert TrimStart(s) == s;
  }

  // ---------------------------------------------------------------- where the writer writes

  ghost predicate SetsDevice(line: string) {
    exists v :: Assigns(line, "device_path", v)
  }

  /** What becomes of line `i`: a line under [video] that sets the device is replaced. */
  ghost function Swap(ls: seq<string>, i: nat, device: string): string
    requires i < |ls|
  {
    if Under(ls, i, "video") && SetsDevice(ls[i]) then "device_path = " + device else ls[i]
  }

  ghost function Swaps(ls: seq<string>, from: nat, device: string): seq<string>
    requires from <= |ls|
    decreases |ls| - from
  {
    if from == |ls| then [] else [Swap(ls, from, device)] + Swaps(ls, from + 1, device)
  }

  lemma {:induction false} SwapsAt(ls: seq<string>, from: nat, device: string)
    requires from <= |ls|
    ensures var r := Swaps(ls, from, device);
            |r| == |ls| - from && forall i :: from <= i < |ls| ==> r[i - from] == Swap(ls, i, device)
    decreases |ls| - from
  {
    hide Swap;
    if from < |ls| {
      SwapsAt(ls, from + 1, device);
    }
  }

  /** Lines `h` to `e` are the first [video] section. */
  ghost predicate FirstSection(ls: seq<string>, h: nat, e: nat) {
    && h < e <= |ls| && Opens(ls[h], "video") && (forall i :: 0 <= i < h ==> !Opens(ls[i], "video"))
    && (forall i :: h < i < e ==> !OpensSome(ls[i])) && (e < |ls| ==> OpensSome(ls[e]))
  }

  lemma ScannersAgree(line: string)
    ensures IsVideoHeader(line) <==> Opens(line, "video")
    ensures !IsHeader(line) ==> (IsDeviceLine(line) <==> SetsDevice(line))
    ensures IsHeader(line) ==> !SetsDevice(line)
  {
    OpensExactly(line, "video");
    if HasKey(line) {
      AssignsExactly(line, "device_path", ValueOf(line));
    }
    forall v ensures Assigns(line, "device_path", v) ==> !IsHeader(line) && IsDeviceLine(line) {
      AssignsExactly(line, "device_path", v);
    }
  }

  lemma SwapNext(ls: seq<string>, i: nat, device: string, s: Scan)
    requires i < |ls| && (s.inVideo <==> Under(ls, i, "video"))
    ensures After(ls[i], s).inVideo <==> Under(ls, i + 1, "video")
    ensures s.replaced || !IsHeader(ls[i]) || !s.inVideo ==> Written(ls[i], device, s) == [Swap(ls, i, device)]
    ensures !s.inVideo && !Opens(ls[i], "video") ==> After(ls[i], s) == s
    ensures s.replaced ==> After(ls[i], s).replaced
  {
    UnderNext(ls, i);
    OpensExactly(ls[i], "video");
    ScannersAgree(ls[i]);
    hide IsHeader, IsVideoHeader, IsDeviceLine, Opens, OpensSome, SetsDevice, Under;
  }

  /** Once the device is written, lines are only swapped. */
  lemma {:induction false} ServedSwaps(ls: seq<string>, i: nat, device: string, s: Scan)
    requires i <= |ls| && s.replaced && (s.inVideo <==> Under(ls, i, "video"))
    ensures ReplaceLines(ls[i..], device, s) == Swaps(ls, i, device)
    decreases |ls| - i
  {
    hide Under, Swap, Written, After, ReplaceLines;
    if i < |ls| {
      ReplaceNext(ls, i, device, s);
      SwapNext(ls, i, device, s);
      ServedSwaps(ls, i + 1, device, After(ls[i], s));
    } else {
      ReplaceEnd(device);
      assert ls[i..] == [];
    }
  }

  /** Inside the first section: swapped if it sets the device, and else written at its end. */
  lemma {:induction false} SectionSwaps(ls: seq<string>, i: nat, e: nat, device: string, s: Scan)
    requires i <= e <= |ls| && s == Scan(true, true, false) && Under(ls, i, "video")
    requires (forall j :: i <= j < e ==> !OpensSome(ls[j])) && (e < |ls| ==> OpensSome(ls[e]))
    ensures (exists j :: i <= j < e && SetsDevice(ls[j])) ==>
              ReplaceLines(ls[i..], device, s) == Swaps(ls, i, device)
    ensures (forall j :: i <= j < e ==> !SetsDevice(ls[j])) ==>
              ReplaceLines(ls[i..], device, s) == ls[i..e] + ["device_path = " + device] + Swaps(ls, e, device)
    decreases |ls| - i
  {
    hide Under, ReplaceLines, OpensSome, SetsDevice, IsHeader, IsVideoHeader, IsDeviceLine;
    if i == e {
      assert ls[i..e] == [];
      EndSwaps(ls, e, device, s);
    } else {
      var l := ls[i];
      ReplaceNext(ls, i, device, s);
      SwapNext(ls, i, device, s);
      OpensExactly(l, "video");
      ScannersAgree(l);
      if SetsDevice(l) {
        ServedSwaps(ls, i + 1, device, After(l, s));
      } else {
        SectionSwaps(ls, i + 1, e, device, s);
        assert ls[i..e] == [l] + ls[i + 1..e];
      }
    }
  }

  lemma EndSwaps(ls: seq<string>, e: nat, device: string, s: Scan)
    requires e <= |ls| && s == Scan(true, true, false) && Under(ls, e, "video") && (e < |ls| ==> OpensSome(ls[e]))
    ensures ReplaceLines(ls[e..], device, s) == ["device_path = " + device] + Swaps(ls, e, device)
  {
    hide Under, ReplaceLines, OpensSome, SetsDevice, IsHeader, IsVideoHeader, IsDeviceLine;
    ReplaceEnd(device);
    if e < |ls| {
      ReplaceNext(ls, e, device, s);
      SwapNext(ls, e, device, s);
      OpensExactly(ls[e], "video");
      ScannersAgree(ls[e]);
      ServedSwaps(ls, e + 1, device, After(ls[e], s));
      assert Written(ls[e], device, s) == [DeviceLine(device)] + [ls[e]];
      assert Swap(ls, e, device) == ls[e];
    } else {
      assert ls[e..] == [];
    }
  }

  /** Ahead of the first [video] header nothing changes. */
  lemma {:induction false} NothingAhead(ls: seq<string>, i: nat, h: nat, device: string)
    requires i <= h < |ls| && !Under(ls, i, "video") && Opens(ls[h], "video")
    requires forall j :: i <= j < h ==> !Opens(ls[j], "video")
    ensures ReplaceLines(ls[i..], device, SCAN_START)
         == ls[i..h + 1] + ReplaceLines(ls[h + 1..], device, Scan(true, true, false))
    decreases h - i
  {
    hide Under, ReplaceLines, OpensSome, Opens, SetsDevice, IsHeader, IsVideoHeader, IsDeviceLine;
    ReplaceNext(ls, i, device, SCAN_START);
    SwapNext(ls, i, device, SCAN_START);
    ScannersAgree(ls[i]);
    NotAVideoHeader(ls[i]);
    assert Written(ls[i], device, SCAN_START) == [ls[i]];
    assert ls[i..h + 1] == [ls[i]] + ls[i + 1..h + 1];
    if i < h {
      NothingAhead(ls, i + 1, h, device);
    } else {
      assert ls[i + 1..h + 1] == [];
    }
  }

  /** The first section served: what stands ahead, then only swaps. */
  lemma SwapsBehind(ls: seq<string>, h: nat, device: string, out: seq<string>)
    requires h < |ls| && out == ls[0..h + 1] + Swaps(ls, h + 1, device)
    requires forall i :: 0 <= i <= h ==> Swap(ls, i, device) == ls[i]
    ensures |out| == |ls| && forall i :: 0 <= i < |ls| ==> out[i] == Swap(ls, i, device)
  {
    hide Swap;
    SwapsAt(ls, h + 1, device);
  }

  lemma SwapsAround(ls: seq<string>, h: nat, e: nat, device: string, line: string, out: seq<string>)
    requires h < e <= |ls| && out == ls[0..h + 1] + (ls[h + 1..e] + [line] + Swaps(ls, e, device))
    requires forall i :: 0 <= i < e ==> Swap(ls, i, device) == ls[i]
    ensures |out| == |ls| + 1 && out[e] == line
    ensures forall i :: 0 <= i < |ls| ==> out[if i < e then i else i + 1] == Swap(ls, i, device)
  {
    hide Swap;
    SwapsAt(ls, e, device);
    assert out == ls[..e] + [line] + Swaps(ls, e, device);
  }

  lemma AheadOfFirst(ls: seq<string>, h: nat, e: nat, i: nat)
    requires FirstSection(ls, h, e) && i <= h + 1
    ensures Under(ls, i, "video") <==> i == h + 1
  {
    hide Opens, OpensSome;
    if i == h + 1 {
      assert Opens(ls[h], "video");
    }
  }

  /** Where the writer writes: every line under [video] that sets the device is replaced in its
      place; if the first such section has none, the new line ends that section. All other lines
      stay. */
  lemma WritesInPlace(ls: seq<string>, device: string, h: nat, e: nat)
    requires FirstSection(ls, h, e)
    ensures var out, line := ReplaceLines(ls, device, SCAN_START), "device_path = " + device;
            if exists i :: h < i < e && SetsDevice(ls[i])
            then |out| == |ls| && forall i :: 0 <= i < |ls| ==> out[i] == Swap(ls, i, device)
            else |out| == |ls| + 1 && out[e] == line
                 && forall i :: 0 <= i < |ls| ==> out[if i < e then i else i + 1] == Swap(ls, i, device)
  {
    hide ReplaceLines, SetsDevice, Under, Opens, OpensSome;
    assert ls[0..] == ls;
    forall i: nat | i <= h + 1 ensures Under(ls, i, "video") <==> i == h + 1 {
      AheadOfFirst(ls, h, e, i);
    }
    NothingAhead(ls, 0, h, device);
    SectionSwaps(ls, h + 1, e, device, Scan(true, true, false));
    var out := ReplaceLines(ls, device, SCAN_START);
    if exists i :: h < i < e && SetsDevice(ls[i]) {
      SwapsBehind(ls, h, device, out);
    } else {
      SwapsAround(ls, h, e, device, "device_path = " + device, out);
    }
  }

  // ---------------------------------------------------------------- inline comments

  lemma CommentedLine(device: string, comment: string)
    requires Clean(device) && comment != "" && (comment[0] == '#' || comment[0] == ';')
    ensures Assigns("device_path = " + device + " " + comment, "device_path", device)
  {
    hide TrimEnd, TrimStart, Opens, OpensSome, Assigns;
    var line := "device_path = " + device + " " + comment;
    var head := "device_path = " + device + " " + [comment[0]];
    assert line == head + comment[1..];
    NothingToTrimStart(line);
    TrimEndKeepsPrefix(head, comment[1..]);
    var t := Trim(line);
    assert t == TrimEnd(line);
    hide Trim;
    var k, v, rest := "device_path ", " " + device + " ", t[|head| - 1..];
    assert head == k + "=" + v + [comment[0]];
    assert t[..|head|] == head && t == k + "=" + v + rest && rest[0] == comment[0];
    assert t[0] == head[0] == 'd';
    NoHeader(line);
    assert Splits(t, k, v, rest);
    assert k == KEY + [' '] && Lower(KEY) == KEY;
    KeyTrim();
    TrimSnoc(" " + device, ' ');
    LeadingBlank(device);
    assert v == (" " + device) + [' '] && KEY == "device_path";
    AssignsBy(line, k, v, rest, "device_path", device);
  }

  lemma AssignsBy(line: string, k: string, v: string, comment: string, key: string, value: string)
    requires !OpensSome(line) && Splits(Trim(line), k, v, comment) && Lower(Trim(k)) == key && Trim(v) == value
    ensures Assigns(line, key, value)
  {
    hide OpensSome, Splits, Trim, Lower;
  }

  lemma NoHeader(line: string)
    requires Trim(line) != "" && Trim(line)[0] != '['
    ensures !OpensSome(line)
  {
    hide Trim;
  }

  /** A value is read up to its comment: whatever stands behind the device does no harm. */
  lemma CommentedDevice(content: string, before: seq<string>, device: string, comment: string, after: seq<string>)
    requires Clean(device) && comment != "" && (comment[0] == '#' || comment[0] == ';')
    requires Lines(content) == before + ["[video]", "device_path = " + device + " " + comment] + after
    requires forall i :: 0 <= i < |before| ==> !Opens(before[i], "video")
    ensures VideoDevice(content) == Some(device)
  {
    hide Lines, Opens, OpensSome, Assigns, VideoDevice, Clean;
    var ls, k := Lines(content), |before| + 1;
    CommentedLine(device, comment);
    VideoHeader();
    OpensExactly("[video]", "video");
    assert ls[k - 1] == "[video]" && Under(ls, k, "video");
    assert device != "" by {
      assert Clean("") ==> false by {
        NothingIsNotClean();
      }
    }
    assert Gives(ls, k, device);
    forall j: nat, v | j < k ensures !Gives(ls, j, v) {
      assert forall h :: 0 <= h < j ==> ls[h] == before[h];
    }
    assert FirstGiven(ls, 0, Some(device));
    hide FirstGiven;
    VideoDeviceIsFirst(content);
    FirstIsUnique(ls, 0, Some(device), VideoDevice(content));
  }

  lemma NothingIsNotClean()
    ensures !Clean("")
  {
  }

  const SAMPLE := "/dev/" + "video2"

  function SampleLines(): seq<string> {
    ["[core]", "detection_notice = false", "[video]", "device_path = " + SAMPLE + " " + "# IR"]
  }

  lemma SampleIsClean()
    ensures Clean(SAMPLE)
  {
  }

  lemma SampleHasPlainLines()
    ensures NoNewlines(SampleLines()) && CrFree(SampleLines())
  {
    SampleIsClean();
    hide SAMPLE, Trimmed;
    assert SAMPLE[|SAMPLE| - 1] in SAMPLE;
  }

  lemma SampleReadsBack()
    ensures Lines(Unlines(SampleLines())) == SampleLines()
  {
    SampleHasPlainLines();
    hide Lines, Unlines, SampleLines, NoNewlines, CrFree;
    LinesOfUnlines(SampleLines());
    CrFreeLines(SampleLines());
  }

  lemma SampleOpensNoVideo()
    ensures !Opens(SampleLines()[0], "video") && !Opens(SampleLines()[1], "video")
  {
    TrimOfTrimmed("[core]");
    TrimOfTrimmed("core");
    TrimOfTrimmed("detection_notice = false");
    hide Trim;
    assert Lower("core")[0] != "video"[0];
    assert forall inner :: "[core]" == "[" + inner + "]" ==> inner == "core" by {
      forall inner | "[core]" == "[" + inner + "]" ensures inner == "core" {
        assert inner == "[core]"[1..5];
      }
    }
  }

  /** A file with a comment behind the device. */
  lemma SampleFile()
    ensures VideoDevice(Unlines(SampleLines())) == Some(SAMPLE)
  {
    SampleReadsBack();
    SampleOpensNoVideo();
    SampleIsClean();
    hide Lines, VideoDevice, Opens, Clean, SAMPLE, Unlines;
    var ls := SampleLines();
    assert ls == ls[..2] + ["[video]", "device_path = " + SAMPLE + " " + "# IR"] + [];
    CommentedDevice(Unlines(ls), ls[..2], SAMPLE, "# IR", []);
  }

  // ---------------------------------------------------------------- put-get

  /** The reader finds what the writer wrote, in the section that both take for [video]. */
  lemma {:induction false} PutGetLines(ls: seq<string>, device: string, s: Scan, current: string)
    requires Clean(device) && GoodScan(s) && !s.replaced
    requires s.inVideo <==> current == "video"
    requires s.sawVideo || HasVideo(ls)
    ensures Lookup(ReplaceLines(ls, device, s), current, "video", "device_path") == Some(device)
  {
    hide Trim, Lower, HeaderName, KeyOf, ValueOf, DeviceLine;
    DeviceLineIsDevice(device);
    DeviceLineValue(device);
    var out := ReplaceLines(ls, device, s);
    if ls != [] && !(s.inVideo && (IsHeader(ls[0]) || IsDeviceLine(ls[0]))) {
      VideoHead(ls);
      var next := if IsHeader(ls[0]) then AtHeader(s, ls[0]) else s;
      assert out[0] == ls[0] && out[1..] == ReplaceLines(ls[1..], device, next);
      HeaderIsNoComment(ls[0]);
      NotAVideoHeader(ls[0]);
      if IsHeader(ls[0]) {
        PutGetLines(ls[1..], device, next, HeaderName(ls[0]));
      } else {
        PutGetLines(ls[1..], device, s, current);
      }
    } else {
      assert out[0] == DeviceLine(device);
    }
  }

  lemma VideoHead(ls: seq<string>)
    requires ls != []
    ensures HasVideo(ls) <==> IsVideoHeader(ls[0]) || HasVideo(ls[1..])
  {
  }

  lemma HeaderIsNoComment(line: string)
    ensures IsHeader(line) ==> !IsComment(line)
  {
  }

  /** Both scanners look at trimmed lines only. */
  lemma SameTrim(a: string, b: string)
    requires Trim(a) == Trim(b)
    ensures IsComment(a) == IsComment(b) && IsHeader(a) == IsHeader(b) && HasKey(a) == HasKey(b)
    ensures IsHeader(a) ==> HeaderName(a) == HeaderName(b)
    ensures HasKey(a) ==> KeyOf(a) == KeyOf(b) && ValueOf(a) == ValueOf(b)
  {
    hide Trim, Lower, Uncommented, Find;
  }

  lemma {:induction false} LookupStripCrs(ls: seq<string>, current: string, section: string, key: string)
    ensures Lookup(StripCrs(ls), current, section, key) == Lookup(ls, current, section, key)
  {
    hide IsComment, IsHeader, HasKey, HeaderName, KeyOf, ValueOf, Trim;
    if ls != [] {
      TrimOfStripCr(ls[0]);
      SameTrim(StripCr(ls[0]), ls[0]);
      assert StripCrs(ls)[1..] == StripCrs(ls[1..]);
      LookupStripCrs(ls[1..], if !IsComment(ls[0]) && IsHeader(ls[0]) then HeaderName(ls[0]) else current,
                     section, key);
    }
  }

  lemma {:induction false} ReplaceNoNewlines(ls: seq<string>, device: string, s: Scan)
    requires NoNewlines(ls) && '\n' !in device
    ensures NoNewlines(ReplaceLines(ls, device, s))
  {
    hide IsHeader, IsDeviceLine, IsVideoHeader;
    assert '\n' !in DeviceLine(device);
    hide DeviceLine;
    if ls != [] {
      assert ls[0] in ls;
      ReplaceNoNewlines(ls[1..], device, AtHeader(s, ls[0]));
      ReplaceNoNewlines(ls[1..], device, s.(replaced := true));
      ReplaceNoNewlines(ls[1..], device, s);
    }
  }

  /** Whatever the reader returns is clean. */
  lemma {:induction false} LookupIsClean(ls: seq<string>, current: string, section: string, key: string)
    requires NoNewlines(ls)
    ensures Lookup(ls, current, section, key).Some? ==> Clean(Lookup(ls, current, section, key).value)
  {
    hide IsComment, IsHeader, HeaderName, KeyOf, Clean, Trim, Uncommented;
    if ls != [] {
      assert ls[0] in ls;
      if HasKey(ls[0]) {
        ValueIsClean(ls[0]);
      }
      LookupIsClean(ls[1..], if IsHeader(ls[0]) then HeaderName(ls[0]) else current, section, key);
      LookupIsClean(ls[1..], current, section, key);
    }
  }

  lemma ValueIsClean(line: string)
    requires HasKey(line) && '\n' !in line
    ensures ValueOf(line) != "" ==> Clean(ValueOf(line))
  {
    hide Trim, Trimmed, Uncommented, Find;
    var t := Trim(line);
    var s := t[Find(t, '=') + 1..];
    TrimIsPart(line);
    UncommentedIsPart(s);
    TrimIsPart(Uncommented(s));
    TrimIsTrimmed(Uncommented(s));
    assert '\n' !in s;
  }

  lemma UncommentedIsPart(s: string)
    ensures '#' !in Uncommented(s) && ';' !in Uncommented(s)
    ensures forall c :: c in Uncommented(s) ==> c in s
  {
  }

  /** Put-get, with its exact condition: the reader returns the written device if and only if the
      device is not empty and free of outer white space, comment characters and line ends. */
  lemma PutGet(content: string, device: string)
    requires HasVideo(Lines(content))
    ensures VideoDevice(ReplaceText(content, device)) == Some(device) <==> Clean(device)
  {
    hide IsVideoHeader, IsHeader, IsDeviceLine, Lookup, Lines, Clean;
    var ls := Lines(content);
    if Clean(device) {
      CleanHasNoNewline(device);
      LinesHaveNoNewlines(content);
      ReplaceNoNewlines(ls, device, SCAN_START);
      LinesOfUnlines(ReplaceLines(ls, device, SCAN_START));
      LookupStripCrs(ReplaceLines(ls, device, SCAN_START), NOWHERE, "video", "device_path");
      PutGetLines(ls, device, SCAN_START, NOWHERE);
    }
    LinesHaveNoNewlines(ReplaceText(content, device));
    LookupIsClean(Lines(ReplaceText(content, device)), NOWHERE, "video", "device_path");
  }

  lemma VideoIsTrimmed()
    ensures Trim("[video]") == "[video]" && Trim("video") == "video" && Lower("video") == "video"
  {
    hide Trim;
    TrimOfTrimmed("[video]");
    TrimOfTrimmed("video");
  }

  lemma VideoHeader()
    ensures IsVideoHeader("[video]")
  {
    hide Trim, Lower;
    VideoIsTrimmed();
    var t := "[video]";
    assert t[..1] == "[" && t[6..] == "]" && t[1..6] == "video";
  }

  lemma OneVideoLine()
    ensures Lines("[video]") == ["[video]"] && HasVideo(Lines("[video]"))
  {
    FindUnique("[video]", '\n', 7);
    VideoHeader();
    hide IsVideoHeader;
    assert IsVideoHeader(["[video]"][0]);
  }

  /** The condition can fail: an absolute path with a comment character is not read back. */
  lemma PutGetCanFail()
    ensures HasVideo(Lines("[video]")) && StartsWith("/dev/cam#1", "/")
    ensures VideoDevice(ReplaceText("[video]", "/dev/cam#1")) != Some("/dev/cam#1")
  {
    hide Lines, HasVideo, VideoDevice, ReplaceText, Trimmed;
    OneVideoLine();
    assert "/dev/cam#1"[..1] == "/" && "/dev/cam#1"[8] == '#';
    PutGet("[video]", "/dev/cam#1");
  }

  lemma CleanHasNoNewline(device: string)
    requires Clean(device)
    ensures '\n' !in device
  {
  }

  // ---------------------------------------------------------------- put-put

  lemma ReplaceCons(line: string, rest: seq<string>, device: string, s: Scan)
    ensures ReplaceLines([line] + rest, device, s)
         == Written(line, device, s) + ReplaceLines(rest, device, After(line, s))
  {
  }

  lemma {:induction false} PutPutLines(ls: seq<string>, d1: string, d2: string, s: Scan)
    requires GoodScan(s)
    ensures ReplaceLines(ReplaceLines(ls, d1, s), d2, s) == ReplaceLines(ls, d2, s)
  {
    hide IsHeader, IsDeviceLine, IsVideoHeader, DeviceLine, ReplaceLines;
    DeviceLineIsDevice(d1);
    ReplaceEnd(d1);
    ReplaceEnd(d2);
    if ls == [] {
      if s.sawVideo && !s.replaced {
        assert [DeviceLine(d1)] + [] == [DeviceLine(d1)];
        ReplaceCons(DeviceLine(d1), [], d2, s);
      }
    } else {
      var l, next := ls[0], After(ls[0], s);
      assert [l] + ls[1..] == ls;
      ReplaceCons(l, ls[1..], d1, s);
      ReplaceCons(l, ls[1..], d2, s);
      PutPutLines(ls[1..], d1, d2, next);
      PutPutWritten(l, ReplaceLines(ls[1..], d1, next), d1, d2, s);
    }
  }

  lemma PutPutHeader(l: string, rest: seq<string>, d1: string, d2: string, s: Scan)
    requires IsHeader(l) && s.inVideo && !s.replaced
    ensures ReplaceLines(Written(l, d1, s) + rest, d2, s)
         == Written(l, d2, s) + ReplaceLines(rest, d2, After(l, s))
  {
    hide IsHeader, IsDeviceLine, IsVideoHeader, DeviceLine, ReplaceLines;
    DeviceLineIsDevice(d1);
    var tail := [l] + rest;
    assert Written(l, d1, s) + rest == [DeviceLine(d1)] + tail;
    ReplaceCons(DeviceLine(d1), tail, d2, s);
    ReplaceCons(l, rest, d2, s.(replaced := true));
  }

  /** What one line contributes is contributed anew by a second replacement. */
  lemma PutPutWritten(l: string, rest: seq<string>, d1: string, d2: string, s: Scan)
    requires GoodScan(s)
    ensures ReplaceLines(Written(l, d1, s) + rest, d2, s)
         == Written(l, d2, s) + ReplaceLines(rest, d2, After(l, s))
  {
    hide IsHeader, IsDeviceLine, IsVideoHeader, DeviceLine, ReplaceLines;
    DeviceLineIsDevice(d1);
    ReplaceCons(l, rest, d2, s);
    if IsHeader(l) && s.inVideo && !s.replaced {
      PutPutHeader(l, rest, d1, d2, s);
    } else if !IsHeader(l) && s.inVideo && IsDeviceLine(l) {
      ReplaceCons(DeviceLine(d1), rest, d2, s);
    } else {
      assert [] + [l] == [l];
      assert Written(l, d1, s) == [l];
    }
  }

  lemma {:induction false} ReplaceCrFree(ls: seq<string>, device: string, s: Scan)
    requires CrFree(ls) && StripCr(DeviceLine(device)) == DeviceLine(device)
    ensures CrFree(ReplaceLines(ls, device, s))
  {
    hide IsHeader, IsDeviceLine, IsVideoHeader, DeviceLine;
    if ls != [] {
      assert CrFree(ls[1..]) by {
        assert forall i :: 0 <= i < |ls[1..]| ==> ls[1..][i] == ls[i + 1];
      }
      ReplaceCrFree(ls[1..], device, AtHeader(s, ls[0]));
      ReplaceCrFree(ls[1..], device, s.(replaced := true));
      ReplaceCrFree(ls[1..], device, s);
    }
  }

  /** Put-put: for a text without carriage returns the last device wins, as if the first had never
      been written. */
  lemma PutPut(content: string, d1: string, d2: string)
    requires CrFree(Lines(content)) && '\n' !in d1 && '\r' !in d1
    ensures ReplaceText(ReplaceText(content, d1), d2) == ReplaceText(content, d2)
  {
    hide IsHeader, IsDeviceLine, IsVideoHeader, Lines;
    var ls := Lines(content);
    var out := ReplaceLines(ls, d1, SCAN_START);
    LinesHaveNoNewlines(content);
    ReplaceNoNewlines(ls, d1, SCAN_START);
    LinesOfUnlines(out);
    ReplaceCrFree(ls, d1, SCAN_START);
    CrFreeLines(out);
    PutPutLines(ls, d1, d2, SCAN_START);
  }

  // ---------------------------------------------------------------- frame

  /** The lines that are not device lines of [video]. */
  function Others(ls: seq<string>, inVideo: bool): seq<string> {
    if ls == [] then []
    else if IsHeader(ls[0]) then [ls[0]] + Others(ls[1..], IsVideoHeader(ls[0]))
    else (if inVideo && IsDeviceLine(ls[0]) then [] else [ls[0]]) + Others(ls[1..], inVideo)
  }

  lemma OthersCons(line: string, rest: seq<string>, inVideo: bool)
    ensures Others([line] + rest, inVideo)
         == if IsHeader(line) then [line] + Others(rest, IsVideoHeader(line))
            else (if inVideo && IsDeviceLine(line) then [] else [line]) + Others(rest, inVideo)
  {
    hide IsHeader, IsDeviceLine, IsVideoHeader;
    assert ([line] + rest)[1..] == rest;
  }

  /** Every other line survives, in order. */
  lemma {:induction false} OthersSurvive(ls: seq<string>, device: string, s: Scan)
    requires GoodScan(s)
    ensures Others(ReplaceLines(ls, device, s), s.inVideo) == Others(ls, s.inVideo)
  {
    hide IsHeader, IsDeviceLine, IsVideoHeader, DeviceLine, ReplaceLines, Others;
    DeviceLineIsDevice(device);
    ReplaceEnd(device);
    OthersCons(DeviceLine(device), [], s.inVideo);
    if ls == [] {
      assert [DeviceLine(device)] + [] == [DeviceLine(device)];
    } else {
      var l, next := ls[0], After(ls[0], s);
      var rest := ReplaceLines(ls[1..], device, next);
      assert [l] + ls[1..] == ls;
      ReplaceCons(l, ls[1..], device, s);
      OthersSurvive(ls[1..], device, next);
      OthersCons(l, ls[1..], s.inVideo);
      OthersCons(l, rest, s.inVideo);
      if Written(l, device, s) != [l] {
        OthersWritten(l, rest, device, s);
      }
    }
  }

  /** A device line that is written is not one of the others. */
  lemma OthersWritten(l: string, rest: seq<string>, device: string, s: Scan)
    requires s.inVideo && Written(l, device, s) != [l]
    ensures Others(Written(l, device, s) + rest, s.inVideo) == Others([l] + rest, s.inVideo)
  {
    hide IsHeader, IsDeviceLine, IsVideoHeader, DeviceLine, Others;
    DeviceLineIsDevice(device);
    var tail := if IsHeader(l) then [l] + rest else rest;
    assert Written(l, device, s) + rest == [DeviceLine(device)] + tail;
    OthersCons(DeviceLine(device), tail, s.inVideo);
    OthersCons(l, rest, s.inVideo);
  }

  lemma LookupSkips(line: string, rest: seq<string>, current: string, section: string, key: string)
    requires section != "video" || key != "device_path"
    requires current == "video" && IsDeviceLine(line)
    requires !IsHeader(line)
    ensures Lookup([line] + rest, current, section, key) == Lookup(rest, current, section, key)
  {
    hide IsHeader, IsComment, KeyOf, ValueOf;
    assert ([line] + rest)[1..] == rest;
  }

  lemma LookupCons(line: string, a: seq<string>, b: seq<string>, current: string, section: string, key: string)
    requires var next := if IsHeader(line) then HeaderName(line) else current;
             Lookup(a, next, section, key) == Lookup(b, next, section, key)
    ensures Lookup([line] + a, current, section, key) == Lookup([line] + b, current, section, key)
  {
  }

  /** Frame, from any point of the scan: every lookup of another section or key gives the same
      answer before and after. */
  lemma {:induction false} FrameLines(ls: seq<string>, device: string, s: Scan, current: string,
                                      section: string, key: string)
    requires GoodScan(s) && (s.inVideo <==> current == "video")
    requires section != "video" || key != "device_path"
    ensures Lookup(ReplaceLines(ls, device, s), current, section, key) == Lookup(ls, current, section, key)
  {
    hide IsDeviceLine, HeaderName, DeviceLine, IsComment, IsHeader, Lookup;
    DeviceLineIsDevice(device);
    if ls == [] {
      if s.sawVideo && !s.replaced {
        assert ReplaceLines(ls, device, s) == [DeviceLine(device)] + [];
        LookupSkips(DeviceLine(device), [], current, section, key);
      }
      return;
    }
    assert ls == [ls[0]] + ls[1..];
    if IsHeader(ls[0]) {
      var next := AtHeader(s, ls[0]);
      var rest := ReplaceLines(ls[1..], device, next);
      FrameLines(ls[1..], device, next, HeaderName(ls[0]), section, key);
      LookupCons(ls[0], rest, ls[1..], current, section, key);
      if s.inVideo && !s.replaced {
        assert ReplaceLines(ls, device, s) == [DeviceLine(device)] + ([ls[0]] + rest);
        LookupSkips(DeviceLine(device), [ls[0]] + rest, current, section, key);
      } else {
        assert ReplaceLines(ls, device, s) == [ls[0]] + rest;
      }
    } else if s.inVideo && IsDeviceLine(ls[0]) {
      var rest := ReplaceLines(ls[1..], device, s.(replaced := true));
      FrameLines(ls[1..], device, s.(replaced := true), current, section, key);
      LookupSkips(DeviceLine(device), rest, current, section, key);
      LookupSkips(ls[0], ls[1..], current, section, key);
    } else {
      FrameLines(ls[1..], device, s, current, section, key);
      LookupCons(ls[0], ReplaceLines(ls[1..], device, s), ls[1..], current, section, key);
    }
  }

  /** The frame law on whole files. */
  lemma Frame(content: string, device: string, section: string, key: string)
    requires section != "video" || key != "device_path"
    requires '\n' !in device
    ensures Lookup(Lines(ReplaceText(content, device)), NOWHERE, section, key)
         == Lookup(Lines(content), NOWHERE, section, key)
  {
    hide IsHeader, IsDeviceLine, IsVideoHeader, Lines, Lookup;
    var ls := Lines(content);
    LinesHaveNoNewlines(content);
    ReplaceNoNewlines(ls, device, SCAN_START);
    LinesOfUnlines(ReplaceLines(ls, device, SCAN_START));
    LookupStripCrs(ReplaceLines(ls, device, SCAN_START), NOWHERE, section, key);
    FrameLines(ls, device, SCAN_START, NOWHERE, section, key);
  }

  // ---------------------------------------------------------------- binding a camera

  /** The configuration file as the daemon finds it. */
  datatype Config = Missing | Unreadable | Readable(content: string)

  datatype Camera = Device(path: string) | Unconfigured | ConfigError

  /** `configured_camera`. */
  function ConfiguredCamera(config: Config): Camera {
    match config
    case Missing => Unconfigured
    case Unreadable => ConfigError
    case Readable(content) =>
      match VideoDevice(content)
      case None => Unconfigured
      case Some(device) => if Lower(device) == "none" then Unconfigured else Device(device)
  }

  /** The camera of the daemon: the first device the file gives, unless it is `none` in any case. */
  lemma ConfiguredExactly(config: Config, content: string, path: string)
    ensures ConfiguredCamera(Missing) == Unconfigured && ConfiguredCamera(Unreadable) == ConfigError
    ensures ConfiguredCamera(Readable(content)) == Device(path) <==>
              FirstGiven(Lines(content), 0, Some(path)) && Lower(path) != "none"
    ensures ConfiguredCamera(Readable(content)).Device? || ConfiguredCamera(Readable(content)).Unconfigured?
  {
    hide Lines, FirstGiven, VideoDevice;
    VideoDeviceIsFirst(content);
    if FirstGiven(Lines(content), 0, Some(path)) {
      FirstIsUnique(Lines(content), 0, Some(path), VideoDevice(content));
    }
  }

  /** After `bind_camera` accepted an absolute path, the daemon reads that very path back, if and
      only if the path is clean. */
  lemma BindThenConfigured(content: string, device: string)
    requires StartsWith(device, "/") && HasVideo(Lines(content))
    ensures ConfiguredCamera(Readable(ReplaceText(content, device))) == Device(device) <==> Clean(device)
  {
    hide IsVideoHeader, Lines, VideoDevice, Clean, ReplaceText;
    PutGet(content, device);
    assert device[0] == '/' by {
      assert device[..1][0] == '/';
    }
    assert Lower(device)[0] == '/';
  }
}
