/** The version-5 pipeline text writer: a fixed header, one block per module
    (a blank line, the module line with its eight attributes, one line per
    setting), and optionally the image plane details. */
module PipelineV5 {
  import opened Wrappers
  import opened Text
  import opened Decimal
  import opened Seqs

  const BANNER: string := "CellProfiler Pipeline: http://www.cellprofiler.org"
  const SETTING_INDENT: string := "    "

  /** The `repr` text of each of the eight attributes every module block records. */
  datatype ModuleAttributes = ModuleAttributes(
    moduleNum: string,
    svnVersion: string,
    variableRevisionNumber: string,
    showWindow: string,
    notes: string,
    batchState: string,
    enabled: string,
    wantsPause: string)

  /** A setting's label and its text value. */
  datatype Setting = Setting(text: string, value: string)

  datatype Module = Module(name: string, attributes: ModuleAttributes, settings: seq<Setting>)

  datatype Pipeline = Pipeline(fileList: seq<string>, modules: seq<Module>)

  /** The version string did not reduce to an integer. */
  datatype DumpError = BadVersion(version: string)

  /** The attribute names, in the order the writer emits them. */
  const ATTRIBUTE_NAMES: seq<string> := [
    "module_num", "svn_version", "variable_revision_number", "show_window",
    "notes", "batch_state", "enabled", "wants_pause"]

  function AttributeReprs(a: ModuleAttributes): (r: seq<string>)
    ensures |r| == |ATTRIBUTE_NAMES|
  {
    [a.moduleNum, a.svnVersion, a.variableRevisionNumber, a.showWindow,
     a.notes, a.batchState, a.enabled, a.wantsPause]
  }

  /** `name:repr` for each attribute, in order. */
  function AttributeFields(a: ModuleAttributes): (r: seq<string>)
    ensures |r| == |ATTRIBUTE_NAMES|
    ensures forall i :: 0 <= i < |r| ==> r[i] == ATTRIBUTE_NAMES[i] + ":" + AttributeReprs(a)[i]
  {
    var reprs := AttributeReprs(a);
    seq(|ATTRIBUTE_NAMES|, i requires 0 <= i < |ATTRIBUTE_NAMES| => ATTRIBUTE_NAMES[i] + ":" + reprs[i])
  }

  /** `name:[field|field|...]`. */
  function ModuleHeader(m: Module): string {
    m.name + ":[" + Join(AttributeFields(m.attributes), '|') + "]"
  }

  function SettingLine(s: Setting): string {
    SETTING_INDENT + s.text + ":" + s.value
  }

  function SettingLines(ss: seq<Setting>): (r: seq<string>)
    ensures |r| == |ss|
    ensures forall i :: 0 <= i < |ss| ==> r[i] == SettingLine(ss[i])
  {
    if |ss| == 0 then [] else [SettingLine(ss[0])] + SettingLines(ss[1..])
  }

  /** A blank line, the module line, then one line per setting. */
  function ModuleBlock(m: Module): (r: seq<string>)
    ensures |r| == 2 + |m.settings|
  {
    ["", ModuleHeader(m)] + SettingLines(m.settings)
  }

  function ModuleBlocks(ms: seq<Module>): seq<string> {
    if |ms| == 0 then [] else ModuleBlock(ms[0]) + ModuleBlocks(ms[1..])
  }

  /** Python's text for a boolean. */
  function BoolText(b: bool): string {
    if b then "True" else "False"
  }

  /** The version string with every `.` and every `rc` followed by one digit
      removed, scanning from the left as a regular-expression substitution does. */
  function StripVersion(s: string): (r: string)
    ensures |r| <= |s|
    ensures '.' !in r
    decreases |s|
  {
    if |s| == 0 then ""
    else if s[0] == '.' then StripVersion(s[1..])
    else if |s| >= 3 && s[0] == 'r' && s[1] == 'c' && IsDigit(s[2]) then StripVersion(s[3..])
    else [s[0]] + StripVersion(s[1..])
  }

  /** The integer date revision recorded in the header. */
  function DateRevision(version: string): Result<int, DumpError> {
    match ParseInt(StripVersion(version))
    case Some(n) => Success(n)
    case None => Failure(BadVersion(version))
  }

  /** The image plane details are written only when asked for and the file list is non-empty. */
  function SavesDetails(p: Pipeline, saveImagePlaneDetails: bool): bool {
    saveImagePlaneDetails && |p.fileList| > 0
  }

  /** The six header lines. */
  function HeaderLines(nativeVersion: int, dateRevision: int, moduleCount: int, details: bool): (r: seq<string>)
    ensures |r| == 6
  {
    [BANNER,
     "Version:" + IntToString(nativeVersion),
     "DateRevision:" + IntToString(dateRevision),
     "GitHash:",
     "ModuleCount:" + IntToString(moduleCount),
     "HasImagePlaneDetails:" + BoolText(details)]
  }

  /** The lines the writer emits, each ending in a newline in the output; when the
      image plane details are saved, the last line is the blank line that precedes
      the file list. */
  function DumpLines(p: Pipeline, version: string, nativeVersion: int, saveImagePlaneDetails: bool): (r: Result<seq<string>, DumpError>)
    ensures r.Failure? <==> ParseInt(StripVersion(version)).None?
    ensures r.Failure? ==> r.error == BadVersion(version)
  {
    var dateRevision :- DateRevision(version);
    var details := SavesDetails(p, saveImagePlaneDetails);
    Success(HeaderLines(nativeVersion, dateRevision, |p.modules|, details)
            + ModuleBlocks(p.modules)
            + (if details then [""] else []))
  }

  /** The whole text written: the lines, then what the file list writer produces
      (`fileListText`, given) when the image plane details are saved. */
  function Dump(p: Pipeline, version: string, nativeVersion: int, saveImagePlaneDetails: bool, fileListText: string): (r: Result<string, DumpError>)
    ensures r.Failure? <==> DumpLines(p, version, nativeVersion, saveImagePlaneDetails).Failure?
  {
    var lines :- DumpLines(p, version, nativeVersion, saveImagePlaneDetails);
    Success(Unlines(lines) + if SavesDetails(p, saveImagePlaneDetails) then fileListText else "")
  }

  /** With an empty file list, asking for the details changes nothing in the lines. */
  lemma EmptyFileListSameLines(p: Pipeline, version: string, nativeVersion: int)
    requires |p.fileList| == 0
    ensures DumpLines(p, version, nativeVersion, true) == DumpLines(p, version, nativeVersion, false)
  {
    assert SavesDetails(p, true) == SavesDetails(p, false);
  }

  /** With an empty file list the output is the one written when no details are asked for. */
  lemma EmptyFileListWritesNoDetails(p: Pipeline, version: string, nativeVersion: int, fileListText: string)
    requires |p.fileList| == 0
    ensures Dump(p, version, nativeVersion, true, fileListText) == Dump(p, version, nativeVersion, false, "")
    ensures DumpLines(p, version, nativeVersion, true).Success? ==>
      DumpLines(p, version, nativeVersion, true).value[5] == "HasImagePlaneDetails:" + "False"
  {
    EmptyFileListSameLines(p, version, nativeVersion);
    if DumpLines(p, version, nativeVersion, true).Success? {
      HeaderLayout(p, version, nativeVersion, true);
    }
  }

  /** The written lines are the header, the module blocks and the optional blank line. */
  lemma DumpLinesParts(p: Pipeline, version: string, nativeVersion: int, save: bool)
    requires DumpLines(p, version, nativeVersion, save).Success?
    ensures DateRevision(version).Success?
    ensures DumpLines(p, version, nativeVersion, save).value ==
      HeaderLines(nativeVersion, DateRevision(version).value, |p.modules|, SavesDetails(p, save))
      + (ModuleBlocks(p.modules) + if SavesDetails(p, save) then [""] else [])
  {
  }

  /** The six header lines, one by one. */
  lemma HeaderLinesAt(nativeVersion: int, dateRevision: int, moduleCount: int, details: bool)
    ensures var h := HeaderLines(nativeVersion, dateRevision, moduleCount, details);
      && h[0] == "CellProfiler Pipeline: http://www.cellprofiler.org"
      && h[1] == "Version:" + IntToString(nativeVersion)
      && h[2] == "DateRevision:" + IntToString(dateRevision)
      && h[3] == "GitHash:"
      && h[4] == "ModuleCount:" + IntToString(moduleCount)
      && h[5] == "HasImagePlaneDetails:" + (if details then "True" else "False")
  {
  }

  lemma HeaderPrefix(h: seq<string>, rest: seq<string>)
    requires |h| == 6
    ensures forall i :: 0 <= i < 6 ==> (h + rest)[i] == h[i]
  {
  }

  /** The output begins with the six header lines, in order: the banner, the native
      version, the date revision, an empty git hash, the module count and whether the
      image plane details follow. */
  lemma HeaderLayout(p: Pipeline, version: string, nativeVersion: int, save: bool)
    requires DumpLines(p, version, nativeVersion, save).Success?
    ensures var lines := DumpLines(p, version, nativeVersion, save).value;
      && |lines| >= 6
      && lines[0] == "CellProfiler Pipeline: http://www.cellprofiler.org"
      && lines[1] == "Version:" + IntToString(nativeVersion)
      && lines[2] == "DateRevision:" + IntToString(DateRevision(version).value)
      && lines[3] == "GitHash:"
      && lines[4] == "ModuleCount:" + IntToString(|p.modules|)
      && lines[5] == "HasImagePlaneDetails:" + (if save && |p.fileList| > 0 then "True" else "False")
  {
    var details := SavesDetails(p, save);
    var h := HeaderLines(nativeVersion, DateRevision(version).value, |p.modules|, details);
    DumpLinesParts(p, version, nativeVersion, save);
    HeaderPrefix(h, ModuleBlocks(p.modules) + if details then [""] else []);
    HeaderLinesAt(nativeVersion, DateRevision(version).value, |p.modules|, details);
  }

  /** The number of lines the module blocks take. */
  function BlockLength(ms: seq<Module>): nat {
    if |ms| == 0 then 0 else 2 + |ms[0].settings| + BlockLength(ms[1..])
  }

  /** Each module contributes a blank line, its module line and one line per setting. */
  lemma {:induction false} ModuleBlocksLength(ms: seq<Module>)
    ensures |ModuleBlocks(ms)| == BlockLength(ms)
  {
    if |ms| > 0 {
      ModuleBlocksLength(ms[1..]);
    }
  }

  /** The block of the `k`-th module starts after the blocks of the modules before it:
      a blank line, then its module line, then its setting lines in order. */
  lemma {:induction false} ModuleBlockAt(ms: seq<Module>, k: int)
    requires 0 <= k < |ms|
    ensures var off := BlockLength(ms[..k]);
      && off + 2 + |ms[k].settings| <= |ModuleBlocks(ms)|
      && ModuleBlocks(ms)[off] == ""
      && ModuleBlocks(ms)[off + 1] == ModuleHeader(ms[k])
      && forall i :: 0 <= i < |ms[k].settings| ==>
           ModuleBlocks(ms)[off + 2 + i] == SettingLine(ms[k].settings[i])
    decreases k
  {
    var block := ModuleBlock(ms[0]);
    var rest := ModuleBlocks(ms[1..]);
    assert ModuleBlocks(ms) == block + rest;
    if k == 0 {
      assert ms[..k] == [];
      assert block[0] == "" && block[1] == ModuleHeader(ms[0]);
      forall i | 0 <= i < |ms[0].settings|
        ensures (block + rest)[2 + i] == SettingLine(ms[0].settings[i])
      {
        assert block[2 + i] == SettingLines(ms[0].settings)[i];
      }
    } else {
      ModuleBlockAt(ms[1..], k - 1);
      assert ms[..k][1..] == ms[1..][..k - 1];
      assert BlockLength(ms[..k]) == |block| + BlockLength(ms[1..][..k - 1]);
    }
  }

  /** Whether a release-candidate tag, `rc` followed by a digit, starts at position `i`. */
  predicate TagAt(s: string, i: int) {
    0 <= i && i + 3 <= |s| && s[i] == 'r' && s[i + 1] == 'c' && IsDigit(s[i + 2])
  }

  /** A version without release-candidate tags loses exactly its dots. */
  lemma {:induction false} StripVersionRemovesDots(s: string)
    requires forall i :: 0 <= i < |s| ==> !TagAt(s, i)
    ensures StripVersion(s) == Filter(s, c => c != '.')
    decreases |s|
  {
    if |s| > 0 {
      NoTagInTail(s);
      StripVersionRemovesDots(s[1..]);
      RemovesDotsStep(s);
    }
  }

  /** Without a tag at the front, removing the dots from the rest removes them from the whole. */
  lemma RemovesDotsStep(s: string)
    requires |s| > 0 && !TagAt(s, 0)
    requires StripVersion(s[1..]) == Filter(s[1..], c => c != '.')
    ensures StripVersion(s) == Filter(s, c => c != '.')
  {
    assert s == [s[0]] + s[1..];
    FilterCons(s[0], s[1..], c => c != '.');
  }

  /** A version without tags has none after its first character either. */
  lemma NoTagInTail(s: string)
    requires |s| > 0
    requires forall i :: 0 <= i < |s| ==> !TagAt(s, i)
    ensures forall i :: 0 <= i < |s[1..]| ==> !TagAt(s[1..], i)
  {
    forall i | 0 <= i < |s[1..]| ensures !TagAt(s[1..], i) {
      assert !TagAt(s, i + 1);
    }
  }

  /** A release version made of digits and dots gives the number its digits spell. */
  lemma ReleaseDateRevision(version: string)
    requires forall i :: 0 <= i < |version| ==> IsDigit(version[i]) || version[i] == '.'
    requires exists i :: 0 <= i < |version| && IsDigit(version[i])
    ensures var digits := Filter(version, c => c != '.');
      IsDigits(digits) && DateRevision(version) == Success(DigitsValue(digits))
  {
    var digits := Filter(version, c => c != '.');
    forall k | 0 <= k < |version| ensures !TagAt(version, k) {
      assert IsDigit(version[k]) || version[k] == '.';
    }
    StripVersionRemovesDots(version);
    var i :| 0 <= i < |version| && IsDigit(version[i]);
    assert version[i] in digits;
    forall k | 0 <= k < |digits| ensures IsDigit(digits[k]) {
      assert digits[k] in version;
    }
    assert IsDigits(digits);
    DigitsParse(digits);
  }

  /** Version 4.0.3 has date revision 403. */
  lemma DateRevisionExample()
    ensures DateRevision("4.0.3") == Success(403)
  {
    assert StripVersion("4.0.3") == "403";
    assert "403"[..2] == "40" && "40"[..1] == "4" && "4"[..0] == "";
    assert DigitsValue("40") == 40;
    DigitsParse("403");
  }

  /** Any character other than a dot or the start of a tag is kept. */
  lemma StripKeeps(c: char, s: string)
    requires c != '.' && c != 'r'
    ensures StripVersion([c] + s) == [c] + StripVersion(s)
  {
    assert ([c] + s)[1..] == s;
  }

  /** A release-candidate tag loses `rc` and the one digit after it. */
  lemma ReleaseCandidateTag(d: char, s: string)
    requires IsDigit(d)
    ensures StripVersion(['r', 'c', d] + s) == StripVersion(s)
  {
    assert (['r', 'c', d] + s)[3..] == s;
  }

  /** Only one digit goes with the tag: a second digit stays in the revision. */
  lemma ReleaseCandidateSecondDigit(d: char, d': char, s: string)
    requires IsDigit(d) && IsDigit(d')
    ensures StripVersion(['r', 'c', d, d'] + s) == [d'] + StripVersion(s)
  {
    assert ['r', 'c', d, d'] + s == ['r', 'c', d] + ([d'] + s);
    ReleaseCandidateTag(d, [d'] + s);
    StripKeeps(d', s);
  }
}
