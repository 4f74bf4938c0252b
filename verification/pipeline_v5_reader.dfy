/** Reading version-5 pipeline lines back: the partner of the writer. A reader
    recovers the header values and every module with its attributes and settings,
    provided module names and setting labels hold no `:` and attribute texts no `|`. */
module PipelineV5Reader {
  import opened Wrappers
  import opened Text
  import opened Decimal
  import opened PipelineV5

  /** The values of the six header lines. */
  datatype Header = Header(
    nativeVersion: int,
    dateRevision: int,
    gitHash: string,
    moduleCount: int,
    hasImagePlaneDetails: bool)

  /** What a reader recovers from the written lines. */
  datatype Document = Document(
    header: Header,
    modules: seq<Module>,
    fileListFollows: bool)   // the blank line that introduces the file list is present

  /** The rest of `line` after `prefix`, if it starts with it. */
  function AfterPrefix(line: string, prefix: string): (r: Option<string>)
    ensures r.Some? ==> line == prefix + r.value
  {
    if StartsWith(line, prefix) then
      assert line == line[..|prefix|] + line[|prefix|..];
      Some(line[|prefix|..])
    else None
  }

  lemma AfterPrefixOf(prefix: string, rest: string)
    ensures AfterPrefix(prefix + rest, prefix) == Some(rest)
  {
    assert (prefix + rest)[..|prefix|] == prefix;
  }

  function ReadIntField(line: string, prefix: string): Option<int> {
    match AfterPrefix(line, prefix)
    case Some(t) => ParseInt(t)
    case None => None
  }

  function ReadBool(t: string): Option<bool> {
    if t == "True" then Some(true) else if t == "False" then Some(false) else None
  }

  /** The texts after `name:` in each field, the names taken in order. */
  function ReadReprs(fields: seq<string>, names: seq<string>): (r: Option<seq<string>>)
    ensures r.Some? ==> |r.value| == |names|
  {
    if |fields| != |names| then None
    else if |fields| == 0 then Some([])
    else
      match AfterPrefix(fields[0], names[0] + ":")
      case None => None
      case Some(repr) =>
        match ReadReprs(fields[1..], names[1..])
        case None => None
        case Some(rest) => Some([repr] + rest)
  }

  /** The eight attributes from the text between the brackets of a module line. */
  function ReadAttributes(inner: string): Option<ModuleAttributes> {
    match ReadReprs(Split(inner, '|'), ATTRIBUTE_NAMES)
    case None => None
    case Some(r) => Some(ModuleAttributes(r[0], r[1], r[2], r[3], r[4], r[5], r[6], r[7]))
  }

  /** A module line: the name up to the first `:`, then the bracketed attributes. */
  function ReadModuleHeader(line: string): Option<(string, ModuleAttributes)> {
    var i := IndexOf(line, ':');
    if i + 3 > |line| || line[i + 1] != '[' || line[|line| - 1] != ']' then None
    else
      match ReadAttributes(line[i + 2..|line| - 1])
      case None => None
      case Some(a) => Some((line[..i], a))
  }

  /** A setting line: the indent, the label up to the first `:`, then the value. */
  function ReadSettingLine(line: string): Option<Setting> {
    match AfterPrefix(line, SETTING_INDENT)
    case None => None
    case Some(rest) =>
      var j := IndexOf(rest, ':');
      if j == |rest| then None else Some(Setting(rest[..j], rest[j + 1..]))
  }

  function ReadSettings(lines: seq<string>): (r: Option<seq<Setting>>)
    ensures r.Some? ==> |r.value| == |lines|
  {
    if |lines| == 0 then Some([])
    else
      match ReadSettingLine(lines[0])
      case None => None
      case Some(s) =>
        match ReadSettings(lines[1..])
        case None => None
        case Some(rest) => Some([s] + rest)
  }

  /** The first blank line at or after `i`, or the end. */
  function NextBlank(lines: seq<string>, i: nat): (j: nat)
    requires i <= |lines|
    ensures i <= j <= |lines|
    ensures j < |lines| ==> lines[j] == ""
    ensures forall k :: i <= k < j ==> lines[k] != ""
    decreases |lines| - i
  {
    if i == |lines| || lines[i] == "" then i else NextBlank(lines, i + 1)
  }

  /** The module blocks, and whether the blank line before the file list ends them. */
  function ReadBlocks(lines: seq<string>): Option<(seq<Module>, bool)>
    decreases |lines|
  {
    if |lines| == 0 then Some(([], false))
    else if lines == [""] then Some(([], true))
    else if |lines| < 2 || lines[0] != "" then None
    else
      var k := NextBlank(lines, 2);
      match ReadModuleHeader(lines[1])
      case None => None
      case Some(header) =>
        match ReadSettings(lines[2..k])
        case None => None
        case Some(settings) =>
          match ReadBlocks(lines[k..])
          case None => None
          case Some(rest) => Some(([Module(header.0, header.1, settings)] + rest.0, rest.1))
  }

  /** Reads the six header lines. */
  function ReadHeader(h: seq<string>): Option<Header>
    requires |h| == 6
  {
    var version := ReadIntField(h[1], "Version:");
    var dateRevision := ReadIntField(h[2], "DateRevision:");
    var gitHash := AfterPrefix(h[3], "GitHash:");
    var moduleCount := ReadIntField(h[4], "ModuleCount:");
    var details := match AfterPrefix(h[5], "HasImagePlaneDetails:")
      case Some(t) => ReadBool(t)
      case None => None;
    if h[0] != BANNER || version.None? || dateRevision.None? || gitHash.None? || moduleCount.None? || details.None? then None
    else Some(Header(version.value, dateRevision.value, gitHash.value, moduleCount.value, details.value))
  }

  /** Reads a whole pipeline's lines. */
  function ReadPipeline(lines: seq<string>): Option<Document> {
    if |lines| < 6 then None
    else
      match ReadHeader(lines[..6])
      case None => None
      case Some(header) =>
        match ReadBlocks(lines[6..])
        case None => None
        case Some(blocks) => Some(Document(header, blocks.0, blocks.1))
  }

  /** Module names and setting labels hold no `:`, attribute texts no `|`: what the
      reader needs to find the boundaries again. */
  predicate Readable(ms: seq<Module>) {
    forall i :: 0 <= i < |ms| ==> ReadableModule(ms[i])
  }

  predicate ReadableModule(m: Module) {
    && ':' !in m.name
    && (forall j :: 0 <= j < |AttributeReprs(m.attributes)| ==> '|' !in AttributeReprs(m.attributes)[j])
    && (forall j :: 0 <= j < |m.settings| ==> ':' !in m.settings[j].text)
  }

  lemma NamesHaveNoBar()
    ensures forall j :: 0 <= j < |ATTRIBUTE_NAMES| ==> '|' !in ATTRIBUTE_NAMES[j] + ":"
  {
  }

  lemma {:induction false} ReprsRoundTrip(reprs: seq<string>, names: seq<string>)
    requires |reprs| == |names|
    ensures ReadReprs(seq(|names|, i requires 0 <= i < |names| => names[i] + ":" + reprs[i]), names) == Some(reprs)
    decreases |names|
  {
    var fields := seq(|names|, i requires 0 <= i < |names| => names[i] + ":" + reprs[i]);
    if |names| > 0 {
      AfterPrefixOf(names[0] + ":", reprs[0]);
      assert fields[0] == names[0] + ":" + reprs[0];
      assert fields[1..] == seq(|names[1..]|, i requires 0 <= i < |names[1..]| => names[1..][i] + ":" + reprs[1..][i]);
      ReprsRoundTrip(reprs[1..], names[1..]);
      assert reprs == [reprs[0]] + reprs[1..];
    }
  }

  /** The attributes come back from the text the writer puts between the brackets. */
  lemma AttributesRoundTrip(a: ModuleAttributes)
    requires forall j :: 0 <= j < |AttributeReprs(a)| ==> '|' !in AttributeReprs(a)[j]
    ensures ReadAttributes(Join(AttributeFields(a), '|')) == Some(a)
  {
    var fields := AttributeFields(a);
    var reprs := AttributeReprs(a);
    NamesHaveNoBar();
    forall j | 0 <= j < |fields| ensures '|' !in fields[j] {
      assert fields[j] == (ATTRIBUTE_NAMES[j] + ":") + reprs[j];
    }
    SplitJoin(fields, '|');
    assert fields == seq(|ATTRIBUTE_NAMES|, i requires 0 <= i < |ATTRIBUTE_NAMES| => ATTRIBUTE_NAMES[i] + ":" + reprs[i]);
    ReprsRoundTrip(reprs, ATTRIBUTE_NAMES);
  }

  /** A module line reads back as the module's name and attributes. */
  lemma ModuleHeaderRoundTrip(m: Module)
    requires ReadableModule(m)
    ensures ReadModuleHeader(ModuleHeader(m)) == Some((m.name, m.attributes))
  {
    var inner := Join(AttributeFields(m.attributes), '|');
    var line := ModuleHeader(m);
    assert line == m.name + [':'] + ("[" + inner + "]");
    IndexOfAfter(m.name, ':', "[" + inner + "]");
    var i := |m.name|;
    assert line[i + 1] == '[';
    assert line[i + 2..|line| - 1] == inner;
    assert line[..i] == m.name;
    AttributesRoundTrip(m.attributes);
  }

  /** A setting line reads back as the setting. */
  lemma SettingLineRoundTrip(s: Setting)
    requires ':' !in s.text
    ensures ReadSettingLine(SettingLine(s)) == Some(s)
  {
    var rest := s.text + [':'] + s.value;
    assert SettingLine(s) == SETTING_INDENT + rest;
    AfterPrefixOf(SETTING_INDENT, rest);
    IndexOfAfter(s.text, ':', s.value);
    assert rest[..|s.text|] == s.text;
    assert rest[|s.text| + 1..] == s.value;
  }

  /** Reading the first line, then the rest. */
  lemma ReadSettingsStep(lines: seq<string>, s: Setting, rest: seq<Setting>)
    requires |lines| > 0 && ReadSettingLine(lines[0]) == Some(s) && ReadSettings(lines[1..]) == Some(rest)
    ensures ReadSettings(lines) == Some([s] + rest)
  {
  }

  lemma {:induction false} SettingLinesRoundTrip(ss: seq<Setting>)
    requires forall j :: 0 <= j < |ss| ==> ':' !in ss[j].text
    ensures ReadSettings(SettingLines(ss)) == Some(ss)
    decreases |ss|
  {
    if |ss| > 0 {
      var tail := ss[1..];
      var lines := SettingLines(ss);
      assert lines[0] == SettingLine(ss[0]) && lines[1..] == SettingLines(tail);
      assert forall j :: 0 <= j < |tail| ==> ':' !in tail[j].text;
      SettingLineRoundTrip(ss[0]);
      SettingLinesRoundTrip(tail);
      ReadSettingsStep(lines, ss[0], tail);
      assert [ss[0]] + tail == ss;
    }
  }

  /** The written blocks, followed by nothing or by the blank line before the file list,
      start with a blank line unless there are none. */
  lemma BlocksStartBlank(ms: seq<Module>, tail: seq<string>)
    requires tail == [] || tail == [""]
    ensures var lines := ModuleBlocks(ms) + tail; |lines| == 0 || lines[0] == ""
  {
    if |ms| > 0 {
      assert (ModuleBlocks(ms) + tail)[0] == ModuleBlock(ms[0])[0];
    }
  }

  /** One block is read off the front of the written lines. */
  lemma FirstBlockBoundary(m: Module, later: seq<string>)
    requires |later| == 0 || later[0] == ""
    ensures var lines := ModuleBlock(m) + later;
      && |lines| >= 2 && lines[0] == "" && lines[1] == ModuleHeader(m)
      && NextBlank(lines, 2) == 2 + |m.settings|
      && lines[2..2 + |m.settings|] == SettingLines(m.settings)
      && lines[2 + |m.settings|..] == later
  {
    var lines := ModuleBlock(m) + later;
    var k := 2 + |m.settings|;
    var settingLines := SettingLines(m.settings);
    assert lines[2..k] == settingLines;
    forall j | 2 <= j < k ensures lines[j] != "" {
      assert lines[j] == settingLines[j - 2];
      assert |SettingLine(m.settings[j - 2])| >= |SETTING_INDENT|;
    }
    assert k < |lines| ==> lines[k] == later[0];
  }

  /** Reading a block off the front of the lines, then the rest. */
  lemma ReadFirstBlock(m: Module, later: seq<string>)
    requires ReadableModule(m)
    requires |later| == 0 || later[0] == ""
    ensures ReadBlocks(ModuleBlock(m) + later) ==
      match ReadBlocks(later)
      case None => None
      case Some(rest) => Some(([m] + rest.0, rest.1))
  {
    var lines := ModuleBlock(m) + later;
    FirstBlockBoundary(m, later);
    ModuleHeaderRoundTrip(m);
    SettingLinesRoundTrip(m.settings);
    assert lines != [""];
  }

  lemma ReadableTail(ms: seq<Module>)
    requires |ms| > 0 && Readable(ms)
    ensures ReadableModule(ms[0]) && Readable(ms[1..])
  {
    forall i | 0 <= i < |ms[1..]| ensures ReadableModule(ms[1..][i]) {
      assert ms[1..][i] == ms[i + 1];
    }
  }

  /** One more module in front: its block is read, then the others as before. */
  lemma BlocksStep(m: Module, rest: seq<Module>, tail: seq<string>)
    requires ReadableModule(m)
    requires tail == [] || tail == [""]
    requires ReadBlocks(ModuleBlocks(rest) + tail) == Some((rest, tail == [""]))
    ensures ReadBlocks(ModuleBlocks([m] + rest) + tail) == Some(([m] + rest, tail == [""]))
  {
    var later := ModuleBlocks(rest) + tail;
    assert ([m] + rest)[1..] == rest;
    assert ModuleBlocks([m] + rest) + tail == ModuleBlock(m) + later;
    BlocksStartBlank(rest, tail);
    ReadFirstBlock(m, later);
  }

  /** The module blocks read back as the modules, with the file-list marker when present. */
  lemma {:induction false} BlocksRoundTrip(ms: seq<Module>, tail: seq<string>)
    requires Readable(ms)
    requires tail == [] || tail == [""]
    ensures ReadBlocks(ModuleBlocks(ms) + tail) == Some((ms, tail == [""]))
    decreases |ms|
  {
    if |ms| == 0 {
      assert ModuleBlocks(ms) + tail == tail;
    } else {
      var m, rest := ms[0], ms[1..];
      assert ms == [m] + rest;
      ReadableTail(ms);
      BlocksRoundTrip(rest, tail);
      BlocksStep(m, rest, tail);
    }
  }

  /** The numeric header fields read back as the numbers written into them. */
  lemma HeaderNumbersRoundTrip(nativeVersion: int, dateRevision: int, moduleCount: int, details: bool)
    ensures var h := HeaderLines(nativeVersion, dateRevision, moduleCount, details);
      && ReadIntField(h[1], "Version:") == Some(nativeVersion)
      && ReadIntField(h[2], "DateRevision:") == Some(dateRevision)
      && ReadIntField(h[4], "ModuleCount:") == Some(moduleCount)
  {
    HeaderLinesAt(nativeVersion, dateRevision, moduleCount, details);
    IntFieldRoundTrip("Version:", nativeVersion);
    IntFieldRoundTrip("DateRevision:", dateRevision);
    IntFieldRoundTrip("ModuleCount:", moduleCount);
  }

  /** The banner, the empty git hash and the details flag read back as written. */
  lemma HeaderTextsRoundTrip(nativeVersion: int, dateRevision: int, moduleCount: int, details: bool)
    ensures var h := HeaderLines(nativeVersion, dateRevision, moduleCount, details);
      && h[0] == BANNER
      && AfterPrefix(h[3], "GitHash:") == Some("")
      && AfterPrefix(h[5], "HasImagePlaneDetails:") == Some(BoolText(details))
      && ReadBool(BoolText(details)) == Some(details)
  {
    var h := HeaderLines(nativeVersion, dateRevision, moduleCount, details);
    AfterPrefixOf("GitHash:", "");
    assert "GitHash:" + "" == h[3];
    AfterPrefixOf("HasImagePlaneDetails:", BoolText(details));
  }

  lemma IntFieldRoundTrip(prefix: string, n: int)
    ensures ReadIntField(prefix + IntToString(n), prefix) == Some(n)
  {
    AfterPrefixOf(prefix, IntToString(n));
    ParseIntOfString(n);
  }

  /** The header lines read back as the values written into them. */
  lemma HeaderRoundTrip(nativeVersion: int, dateRevision: int, moduleCount: int, details: bool)
    ensures ReadHeader(HeaderLines(nativeVersion, dateRevision, moduleCount, details)) ==
      Some(Header(nativeVersion, dateRevision, "", moduleCount, details))
  {
    HeaderNumbersRoundTrip(nativeVersion, dateRevision, moduleCount, details);
    HeaderTextsRoundTrip(nativeVersion, dateRevision, moduleCount, details);
  }

  /** Reading the writer's lines recovers the header values and every module, and the
      module count in the header equals the number of module blocks. */
  lemma DumpRoundTrip(p: Pipeline, version: string, nativeVersion: int, save: bool)
    requires Readable(p.modules)
    requires DumpLines(p, version, nativeVersion, save).Success?
    ensures var doc := ReadPipeline(DumpLines(p, version, nativeVersion, save).value);
      && doc.Some?
      && doc.value.header.nativeVersion == nativeVersion
      && doc.value.header.dateRevision == DateRevision(version).value
      && doc.value.header.gitHash == ""
      && doc.value.modules == p.modules
      && doc.value.header.moduleCount == |doc.value.modules|
      && doc.value.header.hasImagePlaneDetails == (save && |p.fileList| > 0)
      && doc.value.fileListFollows == doc.value.header.hasImagePlaneDetails
  {
    var details := SavesDetails(p, save);
    var dr := DateRevision(version).value;
    var tail: seq<string> := if details then [""] else [];
    var rest := ModuleBlocks(p.modules) + tail;
    var h := HeaderLines(nativeVersion, dr, |p.modules|, details);
    var lines := DumpLines(p, version, nativeVersion, save).value;
    DumpLinesParts(p, version, nativeVersion, save);
    assert lines[..6] == h;
    assert lines[6..] == rest;
    BlocksRoundTrip(p.modules, tail);
    HeaderRoundTrip(nativeVersion, dr, |p.modules|, details);
  }

  /** At the text level, splitting the written text at newlines gives the lines back
      when nothing written contains a newline and no file list follows. */
  lemma DumpTextLines(p: Pipeline, version: string, nativeVersion: int, save: bool, fileListText: string)
    requires DumpLines(p, version, nativeVersion, save).Success?
    requires !SavesDetails(p, save)
    requires forall i :: 0 <= i < |DumpLines(p, version, nativeVersion, save).value| ==>
      '\n' !in DumpLines(p, version, nativeVersion, save).value[i]
    ensures Split(Dump(p, version, nativeVersion, save, fileListText).value, '\n') ==
      DumpLines(p, version, nativeVersion, save).value + [""]
  {
    var lines := DumpLines(p, version, nativeVersion, save).value;
    assert Dump(p, version, nativeVersion, save, fileListText).value == Unlines(lines) + "";
    assert Unlines(lines) + "" == Unlines(lines);
    UnlinesSplit(lines);
  }

  /** When the image plane details are saved, the text is the written lines, each ending
      in a newline, followed by the file list's text; the last of those lines is the
      blank line that precedes the file list. */
  lemma DumpWithDetails(p: Pipeline, version: string, nativeVersion: int, save: bool, fileListText: string)
    requires DumpLines(p, version, nativeVersion, save).Success?
    requires SavesDetails(p, save)
    requires forall i :: 0 <= i < |DumpLines(p, version, nativeVersion, save).value| ==>
      '\n' !in DumpLines(p, version, nativeVersion, save).value[i]
    ensures var lines := DumpLines(p, version, nativeVersion, save).value;
      && Dump(p, version, nativeVersion, save, fileListText).value == Unlines(lines) + fileListText
      && Split(Unlines(lines), '\n') == lines + [""]
      && |lines| == 7 + |ModuleBlocks(p.modules)|
      && lines[|lines| - 1] == ""
  {
    var lines := DumpLines(p, version, nativeVersion, save).value;
    DumpLinesParts(p, version, nativeVersion, save);
    UnlinesSplit(lines);
  }
}
