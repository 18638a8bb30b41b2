// The hardware policy: which V4L2 nodes count as infrared or depth cameras. The sysfs tree, the
// allow-list file and symbolic links are values; the scans are the program's loops.
module Hardware {
  import opened Text
  import opened Order

  datatype Evidence = IrName | DepthName | VerifiedUsbId | NoEvidence

  predicate IsStrict(e: Evidence) {
    !e.NoEvidence?
  }

  // ---------------------------------------------------------------- names

  /** The first position that does not hold an ASCII letter or digit. */
  function WordEnd(s: string): (i: nat)
    ensures i <= |s| && (i < |s| ==> !IsAlphanumeric(s[i]))
    ensures forall j :: 0 <= j < i ==> IsAlphanumeric(s[j])
  {
    if s == "" || !IsAlphanumeric(s[0]) then 0 else 1 + WordEnd(s[1..])
  }

  /** `split` on everything that is not a letter or digit. */
  function Words(s: string): seq<string> {
    var i := WordEnd(s);
    if i == |s| then [s] else [s[..i]] + Words(s[i + 1..])
  }

  predicate TokenIr(lower: string) {
    "ir" in Words(lower)
  }

  /** `ir` at `i`, with no letter or digit on either side. */
  predicate DelimitedIr(s: string, i: nat) {
    && i + 2 <= |s| && s[i] == 'i' && s[i + 1] == 'r'
    && (i == 0 || !IsAlphanumeric(s[i - 1])) && (i + 2 == |s| || !IsAlphanumeric(s[i + 2]))
  }

  /** The token scan finds `ir` exactly where it stands by itself. */
  lemma {:induction false} TokenIrExact(s: string)
    ensures TokenIr(s) <==> exists i: nat :: DelimitedIr(s, i)
  {
    var k := WordEnd(s);
    var head := s[..k];
    if head == "ir" {
      assert s[0] == head[0] && s[1] == head[1];
      assert DelimitedIr(s, 0);
    }
    assert DelimitedIr(s, 0) ==> k == 2 && head == "ir";
    if k < |s| {
      var t := s[k + 1..];
      TokenIrExact(t);
      forall i: nat | DelimitedIr(t, i) ensures DelimitedIr(s, i + k + 1) {
      }
      forall i: nat | DelimitedIr(s, i) && i > 0 ensures i > k && DelimitedIr(t, i - k - 1) {
        assert !IsAlphanumeric(s[i - 1]);
      }
    } else {
      assert head == s && Words(s) == [s];
      assert forall j :: 0 <= j < |s| ==> IsAlphanumeric(s[j]);
      assert forall i: nat :: DelimitedIr(s, i) ==> i == 0;
    }
  }

  // ---------------------------------------------------------------- USB ids

  predicate IsHex(c: char) {
    IsDigit(c) || 'a' <= c <= 'f' || 'A' <= c <= 'F'
  }

  predicate AllHex(s: string) {
    forall i :: 0 <= i < |s| ==> IsHex(s[i])
  }

  /** `VID:PID`, four hexadecimal digits each. */
  predicate ValidUsbId(s: string) {
    var i := Find(s, ':');
    i == 4 && |s| == 9 && AllHex(s[..4]) && AllHex(s[5..])
  }

  /** `VID:PID@IFACE`. */
  predicate ValidUsbSelector(s: string) {
    var i := Find(s, '@');
    i < |s| && ValidUsbId(s[..i]) && |s| == i + 3 && AllHex(s[i + 1..])
  }

  /** An id, character by character. */
  lemma UsbIdExactly(s: string)
    ensures ValidUsbId(s) <==>
      |s| == 9 && s[4] == ':' && forall i :: 0 <= i < 9 && i != 4 ==> IsHex(s[i])
  {
    if |s| == 9 && s[4] == ':' && forall i :: 0 <= i < 9 && i != 4 ==> IsHex(s[i]) {
      FindUnique(s, ':', 4);
    }
  }

  /** A selector, character by character. */
  lemma UsbSelectorExactly(s: string)
    ensures ValidUsbSelector(s) <==>
      && |s| == 12 && s[4] == ':' && s[9] == '@'
      && forall i :: 0 <= i < 12 && i != 4 && i != 9 ==>
           '0' <= s[i] <= '9' || 'a' <= s[i] <= 'f' || 'A' <= s[i] <= 'F'
  {
    var i := Find(s, '@');
    UsbIdExactly(s[..i]);
    if |s| == 12 && s[4] == ':' && s[9] == '@' && forall i :: 0 <= i < 12 && i != 4 && i != 9 ==> IsHex(s[i]) {
      FindUnique(s, '@', 9);
    }
  }

  // ---------------------------------------------------------------- the allow-list

  function AllowEntry(line: string): string {
    Lower(Trim(line[..Find(line, '#')]))
  }

  /** What stands on the line ahead of a comment, without outer white space and in lower case. */
  ghost predicate EntryOf(line: string, entry: string) {
    exists head, tail :: line == head + tail && '#' !in head && (tail == "" || tail[0] == '#')
                         && entry == Lower(Trim(head))
  }

  lemma AllowEntryExactly(line: string, entry: string)
    ensures AllowEntry(line) == entry <==> EntryOf(line, entry)
  {
    var i := Find(line, '#');
    assert line == line[..i] + line[i..];
    forall head, tail | line == head + tail && '#' !in head && (tail == "" || tail[0] == '#')
      ensures head == line[..i]
    {
      FindUnique(line, '#', |head|);
    }
  }

  /** The valid selectors of an allow-list text; none when it cannot be read. */
  ghost function Verified(ids: Option<string>): set<string> {
    match ids
    case None => {}
    case Some(text) => set l | l in Lines(text) && ValidUsbSelector(AllowEntry(l)) :: AllowEntry(l)
  }

  method ReadVerifiedIds(ids: Option<string>) returns (verified: set<string>)
    ensures verified == Verified(ids)
  {
    hide ValidUsbSelector, AllowEntry, Lines;
    verified := {};
    if ids == None {
      return;
    }
    var ls := Lines(ids.value);
    for i := 0 to |ls|
      invariant verified == set l | l in ls[..i] && ValidUsbSelector(AllowEntry(l)) :: AllowEntry(l)
    {
      assert ls[..i + 1] == ls[..i] + [ls[i]];
      var entry := AllowEntry(ls[i]);
      if ValidUsbSelector(entry) {
        verified := verified + {entry};
      }
    }
    assert ls[..|ls|] == ls;
  }

  // ---------------------------------------------------------------- the walk up the device tree

  /** The raw attribute files of one sysfs directory. */
  datatype Attrs = Attrs(iface: Option<string>, vendor: Option<string>, product: Option<string>)

  type Tree = map<seq<string>, Attrs>

  function ReadTrimmed(raw: Option<string>): Option<string> {
    match raw
    case Some(s) => if Trim(s) == "" then None else Some(Trim(s))
    case None => None
  }

  function AttrsAt(tree: Tree, dir: seq<string>): Attrs {
    if dir in tree then tree[dir] else Attrs(None, None, None)
  }

  function IfaceAt(tree: Tree, dir: seq<string>): Option<string> {
    match ReadTrimmed(AttrsAt(tree, dir).iface)
    case Some(s) => Some(Lower(s))
    case None => None
  }

  /** The valid USB id of a directory, if it has one. */
  function IdAt(tree: Tree, dir: seq<string>): Option<string> {
    var v, p := ReadTrimmed(AttrsAt(tree, dir).vendor), ReadTrimmed(AttrsAt(tree, dir).product);
    if v.Some? && p.Some? && ValidUsbId(Lower(v.value) + ":" + Lower(p.value))
    then Some(Lower(v.value) + ":" + Lower(p.value)) else None
  }

  /** `k` is the depth of the nearest directory at or above `dir` with a valid id. */
  ghost predicate Nearest(tree: Tree, dir: seq<string>, k: nat) {
    && k <= |dir| && IdAt(tree, dir[..k]).Some?
    && forall j :: k < j <= |dir| ==> IdAt(tree, dir[..j]).None?
  }

  ghost predicate NoId(tree: Tree, dir: seq<string>) {
    forall j :: 0 <= j <= |dir| ==> IdAt(tree, dir[..j]).None?
  }

  /** The interface number met first on the way from `dir` up to depth `k`. */
  function IfaceUpTo(tree: Tree, dir: seq<string>, k: nat): Option<string>
    requires k <= |dir|
    decreases |dir|
  {
    if IfaceAt(tree, dir).Some? then IfaceAt(tree, dir)
    else if k == |dir| then None
    else IfaceUpTo(tree, dir[..|dir| - 1], k)
  }

  datatype UsbInfo = UsbInfo(id: Option<string>, iface: Option<string>)

  /** The walk ends at depth `stop`: at the nearest valid id, or at the root when there is none. */
  ghost predicate StopsAt(tree: Tree, dir: seq<string>, stop: nat) {
    Nearest(tree, dir, stop) || (NoId(tree, dir) && stop == 0)
  }

  /** `iface` is the interface number of the deepest directory between `dir` and depth `stop` that
      has a readable one. */
  ghost predicate FirstIface(tree: Tree, dir: seq<string>, stop: nat, iface: Option<string>)
    requires stop <= |dir|
  {
    match iface
    case None => forall j :: stop <= j <= |dir| ==> IfaceAt(tree, dir[..j]).None?
    case Some(_) =>
      exists j :: stop <= j <= |dir| && IfaceAt(tree, dir[..j]) == iface
                  && forall i :: j < i <= |dir| ==> IfaceAt(tree, dir[..i]).None?
  }

  /** What the sysfs tree says of a device, without a walk. */
  ghost predicate UsbOf(tree: Tree, device: Option<seq<string>>, usb: UsbInfo) {
    match device
    case None => usb == UsbInfo(None, None)
    case Some(dir) =>
      exists stop: nat :: stop <= |dir| && StopsAt(tree, dir, stop)
        && usb.id == IdAt(tree, dir[..stop]) && FirstIface(tree, dir, stop, usb.iface)
  }

  /** The depth at which the walk stops. */
  function WalkTo(tree: Tree, dir: seq<string>): (k: nat)
    ensures k <= |dir|
    decreases |dir|
  {
    if IdAt(tree, dir).Some? || dir == [] then |dir| else WalkTo(tree, dir[..|dir| - 1])
  }

  function FindUsb(tree: Tree, device: Option<seq<string>>): UsbInfo {
    match device
    case None => UsbInfo(None, None)
    case Some(dir) => UsbInfo(IdAt(tree, dir[..WalkTo(tree, dir)]), IfaceUpTo(tree, dir, WalkTo(tree, dir)))
  }

  /** The walk stops at the nearest valid id, or at the root when there is none. */
  lemma {:induction false} WalkIsNearest(tree: Tree, dir: seq<string>)
    ensures if IdAt(tree, dir[..WalkTo(tree, dir)]).Some? then Nearest(tree, dir, WalkTo(tree, dir))
            else NoId(tree, dir) && WalkTo(tree, dir) == 0
  {
    hide IdAt;
    assert dir[..|dir|] == dir;
    var k := WalkTo(tree, dir);
    if IdAt(tree, dir).None? && dir != [] {
      var up := dir[..|dir| - 1];
      WalkIsNearest(tree, up);
      assert k == WalkTo(tree, up) <= |up|;
      hide WalkTo;
      assert forall j :: 0 <= j <= |up| ==> up[..j] == dir[..j];
      assert forall j :: k < j <= |dir| ==> j == |dir| || dir[..j] == up[..j];
    }
  }

  lemma {:induction false} IfaceIsFirst(tree: Tree, dir: seq<string>, stop: nat)
    requires stop <= |dir|
    ensures FirstIface(tree, dir, stop, IfaceUpTo(tree, dir, stop))
    decreases |dir|
  {
    hide IfaceAt;
    assert dir[..|dir|] == dir;
    if IfaceAt(tree, dir).None? && stop < |dir| {
      var up := dir[..|dir| - 1];
      IfaceIsFirst(tree, up, stop);
      assert forall j :: 0 <= j <= |up| ==> up[..j] == dir[..j];
      var iface := IfaceUpTo(tree, up, stop);
      if iface.Some? {
        var j :| stop <= j <= |up| && IfaceAt(tree, up[..j]) == iface
                 && forall i :: j < i <= |up| ==> IfaceAt(tree, up[..i]).None?;
        assert IfaceAt(tree, dir[..j]) == iface;
      }
    }
  }

  /** The walk finds what the tree says. */
  lemma FindUsbIsUsbOf(tree: Tree, device: Option<seq<string>>)
    ensures UsbOf(tree, device, FindUsb(tree, device))
  {
    hide IdAt, IfaceUpTo, FirstIface;
    if device.Some? {
      var dir := device.value;
      var stop := WalkTo(tree, dir);
      WalkIsNearest(tree, dir);
      hide WalkTo;
      IfaceIsFirst(tree, dir, stop);
      assert StopsAt(tree, dir, stop);
    }
  }

  /** And the tree says one thing only. */
  lemma UsbOfIsUnique(tree: Tree, device: Option<seq<string>>, a: UsbInfo, b: UsbInfo)
    requires UsbOf(tree, device, a) && UsbOf(tree, device, b)
    ensures a == b
  {
    hide IdAt, IfaceAt;
    if device.Some? {
      var dir := device.value;
      var k: nat :| k <= |dir| && StopsAt(tree, dir, k)
                    && a.id == IdAt(tree, dir[..k]) && FirstIface(tree, dir, k, a.iface);
      var l: nat :| l <= |dir| && StopsAt(tree, dir, l)
                    && b.id == IdAt(tree, dir[..l]) && FirstIface(tree, dir, l, b.iface);
      assert k == l;
    }
  }

  /** `find_usb_info`: one walk collects the id and the interface. */
  method FindUsbInfo(tree: Tree, device: Option<seq<string>>) returns (info: UsbInfo)
    ensures info == FindUsb(tree, device) && UsbOf(tree, device, info)
  {
    FindUsbIsUsbOf(tree, device);
    hide IdAt, IfaceAt, UsbOf;
    if device == None {
      return UsbInfo(None, None);
    }
    var cur := device.value;
    var iface: Option<string> := None;
    ghost var k := WalkTo(tree, cur);
    assert cur == device.value[..|cur|];
    while true
      invariant |cur| <= |device.value| && cur == device.value[..|cur|]
      invariant WalkTo(tree, cur) == k <= |cur|
      invariant IfaceUpTo(tree, device.value, k) == if iface.Some? then iface else IfaceUpTo(tree, cur, k)
      decreases |cur|
    {
      if iface == None {
        iface := IfaceAt(tree, cur);
      }
      var id := IdAt(tree, cur);
      if id.Some? {
        return UsbInfo(id, iface);
      }
      if cur == [] {
        return UsbInfo(None, iface);
      }
      cur := cur[..|cur| - 1];
      assert cur == device.value[..|cur|];
    }
  }

  // ---------------------------------------------------------------- classification

  /** One entry of /sys/class/video4linux. */
  datatype VideoEntry = VideoEntry(fileName: string, nameFile: Option<string>, device: Option<seq<string>>)

  datatype VideoDevice = VideoDevice(node: string, name: string, usb: UsbInfo, evidence: Evidence)

  function DeviceName(v: VideoEntry): string {
    match ReadTrimmed(v.nameFile)
    case Some(s) => s
    case None => v.fileName
  }

  function Selector(usb: UsbInfo): Option<string> {
    if usb.id.Some? && usb.iface.Some? then Some(usb.id.value + "@" + usb.iface.value) else None
  }

  function Judge(name: string, usb: UsbInfo, verified: set<string>): Evidence {
    var lower := Lower(name);
    if Contains(lower, "infrared") || TokenIr(lower) then IrName
    else if Contains(lower, "depth") || Contains(lower, "3d camera") then DepthName
    else if Selector(usb).Some? && Selector(usb).value in verified then VerifiedUsbId
    else NoEvidence
  }

  function Classify(v: VideoEntry, tree: Tree, verified: set<string>): VideoDevice {
    var usb := FindUsb(tree, v.device);
    VideoDevice("/dev/" + v.fileName, DeviceName(v), usb, Judge(DeviceName(v), usb, verified))
  }

  /** `infrared`, or `ir` by itself. */
  ghost predicate NameSaysInfrared(name: string) {
    Contains(Lower(name), "infrared") || exists i: nat :: DelimitedIr(Lower(name), i)
  }

  ghost predicate NameSaysDepth(name: string) {
    Contains(Lower(name), "depth") || Contains(Lower(name), "3d camera")
  }

  ghost predicate Listed(ids: Option<string>, selector: string) {
    ids.Some? && exists i :: 0 <= i < |Lines(ids.value)| && EntryOf(Lines(ids.value)[i], selector)
  }

  /** The name of a device: its name file, or the name of the entry where that is empty or not
      readable. */
  predicate Names(v: VideoEntry, name: string) {
    if v.nameFile.Some? && Trim(v.nameFile.value) != "" then name == Trim(v.nameFile.value) else name == v.fileName
  }

  /** The hardware gate: a device is strict exactly when its name says so, or when the nearest valid
      USB id and the first interface number make a selector of the right shape that is on the
      allow-list. */
  lemma StrictExactly(v: VideoEntry, tree: Tree, ids: Option<string>, usb: UsbInfo, name: string)
    requires UsbOf(tree, v.device, usb) && Names(v, name)
    ensures var d := Classify(v, tree, Verified(ids));
            var allowed := usb.id.Some? && usb.iface.Some? && |usb.id.value| == 9 && |usb.iface.value| == 2
                           && AllHex(usb.iface.value) && Listed(ids, usb.id.value + "@" + usb.iface.value);
            && d.node == "/dev/" + v.fileName && d.name == name && d.usb == usb
            && (d.evidence == IrName <==> NameSaysInfrared(name))
            && (d.evidence == DepthName <==> !NameSaysInfrared(name) && NameSaysDepth(name))
            && (d.evidence == VerifiedUsbId <==> !NameSaysInfrared(name) && !NameSaysDepth(name) && allowed)
            && (IsStrict(d.evidence) <==> NameSaysInfrared(name) || NameSaysDepth(name) || allowed)
  {
    hide Contains, Lower, DelimitedIr, TokenIr, ValidUsbSelector, AllowEntry, Lines, FindUsb, UsbOf, Trim;
    FindUsbIsUsbOf(tree, v.device);
    UsbOfIsUnique(tree, v.device, usb, FindUsb(tree, v.device));
    TokenIrExact(Lower(name));
    if usb.id.Some? && usb.iface.Some? {
      FoundIdIsValid(tree, v.device, usb);
      var selector := usb.id.value + "@" + usb.iface.value;
      SelectorOfId(usb.id.value, usb.iface.value);
      ListedIsVerified(ids, selector);
    }
  }

  lemma FoundIdIsValid(tree: Tree, device: Option<seq<string>>, usb: UsbInfo)
    requires UsbOf(tree, device, usb) && usb.id.Some?
    ensures ValidUsbId(usb.id.value)
  {
    hide ValidUsbId, FirstIface, StopsAt;
  }

  lemma SelectorOfId(id: string, iface: string)
    requires ValidUsbId(id)
    ensures |id| == 9 && (ValidUsbSelector(id + "@" + iface) <==> |iface| == 2 && AllHex(iface))
  {
    UsbIdExactly(id);
    UsbSelectorExactly(id + "@" + iface);
    hide ValidUsbId, ValidUsbSelector;
    var s := id + "@" + iface;
    assert forall i :: 0 <= i < 9 ==> s[i] == id[i];
    assert forall i :: 0 <= i < |iface| ==> s[10 + i] == iface[i];
    assert s[9] == '@';
    assert |s| == 12 ==> forall i :: 10 <= i < 12 ==> s[i] == iface[i - 10];
  }

  lemma ListedIsVerified(ids: Option<string>, selector: string)
    ensures selector in Verified(ids) <==> ValidUsbSelector(selector) && Listed(ids, selector)
  {
    hide ValidUsbSelector, AllowEntry, EntryOf, Lines;
    if ids.Some? {
      forall l ensures AllowEntry(l) == selector <==> EntryOf(l, selector) {
        AllowEntryExactly(l, selector);
      }
    }
  }

  /** Ids and interface numbers as the attribute files hold them: trimmed, in lower case, not empty. */
  lemma AttributesExactly(tree: Tree, dir: seq<string>, text: string)
    ensures var a := AttrsAt(tree, dir);
            && (IfaceAt(tree, dir) == Some(text) <==> a.iface.Some? && text == Lower(Trim(a.iface.value)) && text != "")
            && (IdAt(tree, dir) == Some(text) <==>
                  && a.vendor.Some? && a.product.Some?
                  && text == Lower(Trim(a.vendor.value)) + ":" + Lower(Trim(a.product.value))
                  && |text| == 9 && text[4] == ':' && forall i :: 0 <= i < 9 && i != 4 ==> IsHex(text[i]))
  {
    hide Trim;
    var a := AttrsAt(tree, dir);
    if a.vendor.Some? && a.product.Some? {
      var id := Lower(Trim(a.vendor.value)) + ":" + Lower(Trim(a.product.value));
      UsbIdExactly(id);
      if Trim(a.vendor.value) == "" {
        assert id[0] == ':' && !IsHex(':');
      }
      if Trim(a.product.value) == "" {
        assert id[|id| - 1] == ':' && !IsHex(':');
      }
    }
  }

  /** More allow-list lines never take a strict device away. */
  lemma AllowListMonotone(v: VideoEntry, tree: Tree, fewer: string, more: string)
    requires forall l :: l in Lines(fewer) ==> l in Lines(more)
    requires IsStrict(Classify(v, tree, Verified(Some(fewer))).evidence)
    ensures IsStrict(Classify(v, tree, Verified(Some(more))).evidence)
  {
  }

  // ---------------------------------------------------------------- probing

  function NodeOf(d: VideoDevice): string {
    d.node
  }

  function FileNameOf(v: VideoEntry): string {
    v.fileName
  }

  /** The devices of a listing, in listing order. */
  function Found(entries: seq<VideoEntry>, tree: Tree, verified: set<string>): seq<VideoDevice> {
    if entries == [] then []
    else
      (if StartsWith(entries[0].fileName, "video") then [Classify(entries[0], tree, verified)] else [])
      + Found(entries[1..], tree, verified)
  }

  /** The result of a probe: the devices by node. */
  function Probe(entries: seq<VideoEntry>, tree: Tree, verified: set<string>): seq<VideoDevice> {
    SortBy(Found(entries, tree, verified), NodeOf)
  }

  method ProbeAt(entries: seq<VideoEntry>, tree: Tree, ids: Option<string>) returns (devices: seq<VideoDevice>)
    ensures devices == Probe(entries, tree, Verified(ids))
  {
    hide StartsWith, Judge, FindUsb, DeviceName, Verified, SortBy;
    var verified := ReadVerifiedIds(ids);
    devices := [];
    assert entries[0..] == entries && [] + Found(entries, tree, verified) == Found(entries, tree, verified);
    for i := 0 to |entries|
      invariant devices + Found(entries[i..], tree, verified) == Found(entries, tree, verified)
    {
      var v := entries[i];
      assert entries[i..][1..] == entries[i + 1..];
      if !StartsWith(v.fileName, "video") {
        assert [] + Found(entries[i + 1..], tree, verified) == Found(entries[i + 1..], tree, verified);
        continue;
      }
      var usb := FindUsbInfo(tree, v.device);
      var evidence := Judge(DeviceName(v), usb, verified);
      devices := devices + [VideoDevice("/dev/" + v.fileName, DeviceName(v), usb, evidence)];
    }
    assert entries[|entries|..] == [] && devices + [] == devices;
    devices := SortBy(devices, NodeOf);
  }

  lemma {:induction false} FoundElements(entries: seq<VideoEntry>, tree: Tree, verified: set<string>)
    ensures forall d :: d in Found(entries, tree, verified) <==>
              exists v :: v in entries && StartsWith(v.fileName, "video") && d == Classify(v, tree, verified)
  {
    hide StartsWith, Classify;
    if entries != [] {
      FoundElements(entries[1..], tree, verified);
      assert entries == [entries[0]] + entries[1..];
      assert forall v :: v in entries <==> v == entries[0] || v in entries[1..];
    }
  }

  lemma ClassifyNode(v: VideoEntry, tree: Tree, verified: set<string>)
    ensures Classify(v, tree, verified).node == "/dev/" + v.fileName
  {
  }

  lemma NodeInjective(a: string, b: string)
    ensures "/dev/" + a == "/dev/" + b ==> a == b
  {
    assert ("/dev/" + a)[5..] == a && ("/dev/" + b)[5..] == b;
  }

  lemma {:induction false} FoundDistinct(entries: seq<VideoEntry>, tree: Tree, verified: set<string>)
    requires DistinctKeys(entries, FileNameOf)
    ensures DistinctKeys(Found(entries, tree, verified), NodeOf)
  {
    hide StartsWith, Judge, FindUsb, DeviceName;
    if entries != [] {
      var t := entries[1..];
      assert forall i :: 0 <= i < |t| ==> t[i] == entries[i + 1];
      FoundDistinct(t, tree, verified);
      var rest := Found(t, tree, verified);
      FoundElements(t, tree, verified);
      forall d | d in rest ensures d.node != "/dev/" + entries[0].fileName {
        var v :| v in t && d == Classify(v, tree, verified);
        var k :| 0 <= k < |t| && t[k] == v;
        assert FileNameOf(entries[0]) != FileNameOf(entries[k + 1]);
        ClassifyNode(v, tree, verified);
        NodeInjective(v.fileName, entries[0].fileName);
      }
    }
  }

  /** A probe gives each entry whose name starts with `video` once, by node. */
  lemma ProbeExactly(entries: seq<VideoEntry>, tree: Tree, verified: set<string>)
    requires DistinctKeys(entries, FileNameOf)
    ensures var r := Probe(entries, tree, verified);
            && Ascending(r, NodeOf)
            && forall d :: d in r <==>
                 exists v :: v in entries && |v.fileName| >= 5 && v.fileName[..5] == "video"
                             && d == Classify(v, tree, verified)
  {
    hide StartsWith, Classify, Found, SortBy;
    FoundDistinct(entries, tree, verified);
    FoundElements(entries, tree, verified);
    SortByCorrect(Found(entries, tree, verified), NodeOf);
    VideoNames();
  }

  lemma VideoNames()
    ensures forall s :: StartsWith(s, "video") <==> |s| >= 5 && s[..5] == "video"
  {
  }

  /** The result of a probe does not depend on the order of the directory. */
  lemma ProbeOrderIndependent(a: seq<VideoEntry>, b: seq<VideoEntry>, tree: Tree, verified: set<string>)
    requires DistinctKeys(a, FileNameOf) && DistinctKeys(b, FileNameOf)
    requires forall v :: v in a <==> v in b
    ensures Probe(a, tree, verified) == Probe(b, tree, verified)
  {
    hide StartsWith, Classify, Found, SortBy;
    var fa, fb := Found(a, tree, verified), Found(b, tree, verified);
    FoundDistinct(a, tree, verified);
    FoundDistinct(b, tree, verified);
    FoundElements(a, tree, verified);
    FoundElements(b, tree, verified);
    SortByCorrect(fa, NodeOf);
    SortByCorrect(fb, NodeOf);
    AscendingUnique(SortBy(fa, NodeOf), SortBy(fb, NodeOf), NodeOf);
  }

  // ---------------------------------------------------------------- the policy of one path

  datatype Resolved = Target(path: string) | NotFound | Failed

  /** Everything the policy reads: links, the video listing, the device tree, the allow-list. */
  datatype Machine = Machine(links: map<string, Resolved>, videos: Option<seq<VideoEntry>>, tree: Tree,
                             ids: Option<string>)

  function Resolve(m: Machine, path: string): Resolved {
    if path in m.links then m.links[path] else NotFound
  }

  datatype Policy = StrictDevice(device: VideoDevice) | NotStrict | PolicyError

  /** The strict device that `path` resolves to. */
  ghost predicate Identifies(m: Machine, path: string, d: VideoDevice) {
    && m.videos.Some? && Resolve(m, path).Target? && Resolve(m, d.node) == Resolve(m, path)
    && IsStrict(d.evidence)
    && exists v :: v in m.videos.value && StartsWith(v.fileName, "video") && d == Classify(v, m.tree, Verified(m.ids))
  }

  /** A correct answer about one path. */
  ghost predicate LegalPolicy(m: Machine, path: string, p: Policy) {
    match p
    case StrictDevice(d) => Identifies(m, path, d)
    case NotStrict => forall d :: !Identifies(m, path, d)
    case PolicyError => true
  }

  /** `strict_device_for_path`: it answers with a strict device that the path resolves to, and says
      no only when there is none. */
  method StrictDeviceForPath(m: Machine, path: string) returns (r: Policy)
    ensures LegalPolicy(m, path, r)
    ensures r.PolicyError? <==> Resolve(m, path).Failed? || (Resolve(m, path).Target? && m.videos.None?)
  {
    hide StartsWith, Classify, Verified, SortBy, Found;
    var configured := Resolve(m, path);
    match configured {
      case NotFound => return NotStrict;
      case Failed => return PolicyError;
      case Target(_) =>
    }
    if m.videos == None {
      return PolicyError;
    }
    var devices := ProbeAt(m.videos.value, m.tree, m.ids);
    SortByCorrect(Found(m.videos.value, m.tree, Verified(m.ids)), NodeOf);
    FoundElements(m.videos.value, m.tree, Verified(m.ids));
    for i := 0 to |devices|
      invariant forall k :: 0 <= k < i ==> !(IsStrict(devices[k].evidence) && Resolve(m, devices[k].node) == configured)
    {
      var d := devices[i];
      assert d in devices;
      if IsStrict(d.evidence) && Resolve(m, d.node) == configured {
        return StrictDevice(d);
      }
    }
    forall d ensures !Identifies(m, path, d) {
      if d in devices {
        var k :| 0 <= k < |devices| && devices[k] == d;
        assert !(IsStrict(devices[k].evidence) && Resolve(m, devices[k].node) == configured);
      }
    }
    return NotStrict;
  }
}
