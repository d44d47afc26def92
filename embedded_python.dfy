/** The pure steps of the embedded-Python setup script (setup_embedded_python.py):
    choosing the Windows build for a machine name, the download URL, and the
    rewrite of the `._pth` file that enables `import site`. */
module EmbeddedPython {
  import opened Json

  const ARM_ERROR := "Embedded Python ARM builds are not supported by this script."
  const UNSUPPORTED_PREFIX := "Unsupported architecture: "
  const IMPORT_SITE := "import site"
  const COMMENTED_IMPORT_SITE := "#import site"

  /** The outcome of `detect_windows_arch`: an architecture name, or one of
      its two `RuntimeError`s. */
  datatype ArchResult = Arch(name: string) | ArmRefused | Unsupported(machine: string)

  function ErrorMessage(r: ArchResult): string {
    match r
    case Arch(_) => ""
    case ArmRefused => ARM_ERROR
    case Unsupported(m) => UNSUPPORTED_PREFIX + m
  }

  /** `detect_windows_arch` on the reported machine name. `arm` is checked
      before `64`, so `arm64` is refused while `aarch64` is taken as `amd64`. */
  function DetectWindowsArch(machineName: string): (r: ArchResult)
    ensures Contains(AsciiLower(machineName), "arm") <==> r == ArmRefused
    ensures r == Arch("amd64") <==>
      !Contains(AsciiLower(machineName), "arm") &&
      (Contains(AsciiLower(machineName), "64") || AsciiLower(machineName) in {"amd64", "x86_64"})
    ensures r == Arch("win32") <==>
      !Contains(AsciiLower(machineName), "arm") && !Contains(AsciiLower(machineName), "64") &&
      AsciiLower(machineName) in {"x86", "i386", "i686"}
    ensures r.Arch? ==> r.name in {"amd64", "win32"}
    ensures r.Unsupported? ==> r.machine == AsciiLower(machineName)
  {
    var m := AsciiLower(machineName);
    if Contains(m, "arm") then ArmRefused
    else if Contains(m, "64") || m in {"amd64", "x86_64"} then Arch("amd64")
    else if m in {"x86", "i386", "i686"} then Arch("win32")
    else Unsupported(m)
  }

  lemma AsciiLowerOfLower(s: string)
    requires forall k :: 0 <= k < |s| ==> !('A' <= s[k] <= 'Z')
    ensures AsciiLower(s) == s
  {
  }

  /** `arm` is checked first, so `arm64` is refused. */
  lemma Arm64Refused()
    ensures DetectWindowsArch("arm64") == ArmRefused
  {
    AsciiLowerOfLower("arm64");
    assert StartsWith("arm64", "arm");
  }

  /** `aarch64` contains `64` but not `arm`, so it is taken as `amd64`. */
  lemma Aarch64IsAmd64()
    ensures DetectWindowsArch("aarch64") == Arch("amd64")
  {
    AsciiLowerOfLower("aarch64");
    ContainedChars("aarch64", "arm");
    assert "arm"[2] == 'm' && 'm' !in "aarch64";
    assert "aarch64"[5..7] == "64";
    ContainsAt("aarch64", "64", 5);
  }

  lemma I686IsWin32()
    ensures DetectWindowsArch("i686") == Arch("win32")
  {
    AsciiLowerOfLower("i686");
    ContainedChars("i686", "arm");
    ContainedChars("i686", "64");
    assert "arm"[0] == 'a' && 'a' !in "i686";
    assert "64"[1] == '4' && '4' !in "i686";
  }

  const FTP_BASE := "https://www.python.org/ftp/python/"

  /** The archive name: `python-{version}-embed-{arch}.zip`. */
  function ArchiveName(version: string, arch: string): string {
    "python-" + version + "-embed-" + arch + ".zip"
  }

  /** `build_download_url`: the archive name inside the version's directory. */
  function BuildDownloadUrl(version: string, arch: string): (r: string)
    ensures StartsWith(r, FTP_BASE + version + "/")
    ensures EndsWith(r, "-embed-" + arch + ".zip")
  {
    FTP_BASE + version + "/" + ArchiveName(version, arch)
  }

  /** Different versions or architectures never share a URL, as long as the
      version contains no `/`: the version ends at the first `/` after the base,
      and the architecture sits between the fixed infix and `.zip`. */
  lemma UrlInjective(v1: string, a1: string, v2: string, a2: string)
    requires '/' !in v1 && '/' !in v2
    requires BuildDownloadUrl(v1, a1) == BuildDownloadUrl(v2, a2)
    ensures v1 == v2 && a1 == a2
  {
    LayoutInjective(FTP_BASE, "python-", "-embed-", ".zip", v1, a1, v2, a2);
  }

  lemma LayoutInjective(base: string, head: string, mid: string, tail: string,
                        v1: string, a1: string, v2: string, a2: string)
    requires '/' !in v1 && '/' !in v2
    requires base + v1 + "/" + (head + v1 + mid + a1 + tail) == base + v2 + "/" + (head + v2 + mid + a2 + tail)
    ensures v1 == v2 && a1 == a2
  {
    var r1 := head + v1 + mid + a1 + tail;
    var r2 := head + v2 + mid + a2 + tail;
    assert base + v1 + "/" + r1 == base + (v1 + ['/'] + r1);
    assert base + v2 + "/" + r2 == base + (v2 + ['/'] + r2);
    DropCommonPrefix(base, v1 + ['/'] + r1, v2 + ['/'] + r2);
    FirstSeparator(v1, r1, v2, r2, '/');
    var pre := head + v1 + mid;
    assert r1 == pre + (a1 + tail);
    assert r2 == pre + (a2 + tail);
    DropCommonPrefix(pre, a1 + tail, a2 + tail);
    DropCommonSuffix(a1, a2, tail);
  }

  lemma DropCommonPrefix(p: string, x: string, y: string)
    requires p + x == p + y
    ensures x == y
  {
    assert x == (p + x)[|p|..];
  }

  lemma DropCommonSuffix(x: string, y: string, q: string)
    requires x + q == y + q
    ensures x == y
  {
    assert x == (x + q)[..|x|];
  }

  /** Text before the first separator is determined by the whole. */
  lemma FirstSeparator(v1: string, r1: string, v2: string, r2: string, c: char)
    requires c !in v1 && c !in v2
    requires v1 + [c] + r1 == v2 + [c] + r2
    ensures v1 == v2 && r1 == r2
  {
    var u := v1 + [c] + r1;
    assert u[|v1|] == c && u[|v2|] == c;
    if |v1| < |v2| {
      assert false;
    } else if |v2| < |v1| {
      assert false;
    } else {
      assert v1 == u[..|v1|] == v2;
      assert r1 == u[|v1| + 1..] == r2;
    }
  }

  // ---------------------------------------------------------------------------
  // Lines of the `._pth` file

  /** Line boundaries recognised by Python's `str.splitlines`. */
  predicate IsLineBreak(c: char) {
    var n := c as int;
    n == 0x0A || n == 0x0B || n == 0x0C || n == 0x0D || n == 0x1C || n == 0x1D || n == 0x1E ||
    n == 0x85 || n == 0x2028 || n == 0x2029
  }

  predicate NoLineBreak(s: string) {
    forall k :: 0 <= k < |s| ==> !IsLineBreak(s[k])
  }

  /** Index of the first line boundary in `s`, or `|s|`. */
  function LineEnd(s: string): (i: nat)
    ensures i <= |s|
    ensures NoLineBreak(s[..i])
    ensures i < |s| ==> IsLineBreak(s[i])
    decreases |s|
  {
    if s == [] || IsLineBreak(s[0]) then 0
    else
      var j := LineEnd(s[1..]);
      assert s[..j + 1] == [s[0]] + s[1..][..j];
      j + 1
  }

  /** `str.splitlines()`: a `\r\n` pair is one boundary, and a final boundary
      does not start an extra empty line. */
  function SplitLines(s: string): (r: seq<string>)
    ensures forall k :: 0 <= k < |r| ==> NoLineBreak(r[k])
    decreases |s|
  {
    if s == [] then []
    else
      var i := LineEnd(s);
      if i == |s| then [s]
      else
        var skip := if s[i] == '\r' && i + 1 < |s| && s[i + 1] == '\n' then 2 else 1;
        [s[..i]] + SplitLines(s[i + skip..])
  }

  /** The text written back: the lines joined with `\n`, plus a final `\n`. */
  function LinesText(lines: seq<string>): string {
    Join(lines, "\n") + "\n"
  }

  predicate IsCommentedImportSite(line: string) {
    StartsWith(PyStrip(line), COMMENTED_IMPORT_SITE)
  }

  predicate IsImportSiteLine(line: string) {
    IsCommentedImportSite(line) || PyStrip(line) == IMPORT_SITE
  }

  predicate HasImportSite(lines: seq<string>) {
    exists k :: 0 <= k < |lines| && IsImportSiteLine(lines[k])
  }

  /** What the rewrite puts in place of one line. */
  function RewriteLine(line: string): string {
    if IsCommentedImportSite(line) then IMPORT_SITE else line
  }

  /** The file text after `ensure_import_site`, as a function of the text before. */
  function EnsureImportSiteText(content: string): string {
    var lines := SplitLines(content);
    var mapped := Rewritten(lines);
    LinesText(if HasImportSite(lines) then mapped else mapped + [IMPORT_SITE])
  }

  /** `ensure_import_site` on the text of the `._pth` file: the lines
      rewritten, `import site` appended when no line enables or comments
      it, and the text written back. */
  method EnsureImportSite(content: string) returns (newLines: seq<string>, output: string)
    ensures var lines := SplitLines(content);
      |newLines| == |lines| + (if HasImportSite(lines) then 0 else 1) &&
      (forall k :: 0 <= k < |lines| ==> newLines[k] == RewriteLine(lines[k])) &&
      (!HasImportSite(lines) ==> newLines[|lines|] == IMPORT_SITE)
    ensures output == LinesText(newLines)
    ensures output == EnsureImportSiteText(content)
  {
    var lines := SplitLines(content);
    var hasImportSite;
    newLines, hasImportSite := RewriteLines(lines);
    if !hasImportSite {
      newLines := newLines + [IMPORT_SITE];
    }
    output := LinesText(newLines);
  }

  /** The lines rewritten one by one. */
  function Rewritten(lines: seq<string>): (r: seq<string>)
    ensures |r| == |lines| && forall k :: 0 <= k < |lines| ==> r[k] == RewriteLine(lines[k])
  {
    seq(|lines|, k requires 0 <= k < |lines| => RewriteLine(lines[k]))
  }

  /** The `for line in lines` loop: each line rewritten, and whether any
      line enables or comments `import site`. */
  method RewriteLines(lines: seq<string>) returns (newLines: seq<string>, hasImportSite: bool)
    ensures newLines == Rewritten(lines)
    ensures hasImportSite == HasImportSite(lines)
  {
    newLines := [];
    hasImportSite := false;
    for i := 0 to |lines|
      invariant |newLines| == i
      invariant forall k :: 0 <= k < i ==> newLines[k] == RewriteLine(lines[k])
      invariant hasImportSite <==> exists k :: 0 <= k < i && IsImportSiteLine(lines[k])
    {
      var line := lines[i];
      var stripped := PyStrip(line);
      if StartsWith(stripped, COMMENTED_IMPORT_SITE) {
        newLines := newLines + [IMPORT_SITE];
        hasImportSite := true;
      } else if stripped == IMPORT_SITE {
        newLines := newLines + [line];
        hasImportSite := true;
      } else {
        newLines := newLines + [line];
      }
    }
  }

  // ---------------------------------------------------------------------------
  // Lemmas

  lemma ImportSiteFacts()
    ensures PyStrip(IMPORT_SITE) == IMPORT_SITE
    ensures !IsCommentedImportSite(IMPORT_SITE)
    ensures IsImportSiteLine(IMPORT_SITE)
    ensures NoLineBreak(IMPORT_SITE)
  {
    assert TrimStart(IMPORT_SITE, IsPySpace) == IMPORT_SITE;
    assert TrimEnd(IMPORT_SITE, IsPySpace) == IMPORT_SITE;
  }

  lemma SplitLinesCons(line: string, rest: string)
    requires NoLineBreak(line)
    ensures SplitLines(line + "\n" + rest) == [line] + SplitLines(rest)
  {
    var s := line + "\n" + rest;
    LineEndAt(line, "\n" + rest);
    assert s == line + ("\n" + rest);
    assert s[|line|] == '\n';
    assert s[|line| + 1..] == rest;
    assert s[..|line|] == line;
  }

  lemma {:induction false} LineEndAt(line: string, rest: string)
    requires NoLineBreak(line)
    requires rest != [] && IsLineBreak(rest[0])
    ensures LineEnd(line + rest) == |line|
    decreases |line|
  {
    var s := line + rest;
    if line == [] {
      assert s == rest;
    } else {
      assert s[0] == line[0] && !IsLineBreak(line[0]);
      assert s[1..] == line[1..] + rest;
      assert NoLineBreak(line[1..]) by {
        forall k | 0 <= k < |line| - 1 ensures !IsLineBreak(line[1..][k]) {
          assert line[1..][k] == line[k + 1];
        }
      }
      LineEndAt(line[1..], rest);
    }
  }

  /** Writing lines and splitting them again gives them back. */
  lemma {:induction false} SplitLinesText(lines: seq<string>)
    requires lines != []
    requires forall k :: 0 <= k < |lines| ==> NoLineBreak(lines[k])
    ensures SplitLines(LinesText(lines)) == lines
    decreases |lines|
  {
    if |lines| == 1 {
      SplitLinesOne(lines[0]);
      assert lines == [lines[0]];
    } else {
      var tail := lines[1..];
      assert forall k :: 0 <= k < |tail| ==> NoLineBreak(tail[k]) by {
        forall k | 0 <= k < |tail| ensures NoLineBreak(tail[k]) {
          assert tail[k] == lines[k + 1];
        }
      }
      SplitLinesText(tail);
      SplitLinesStep(lines[0], tail);
      assert lines == [lines[0]] + tail;
    }
  }

  lemma SplitLinesOne(line: string)
    requires NoLineBreak(line)
    ensures SplitLines(LinesText([line])) == [line]
  {
    SplitLinesCons(line, "");
    assert LinesText([line]) == line + "\n" + "";
  }

  lemma SplitLinesStep(head: string, tail: seq<string>)
    requires NoLineBreak(head) && |tail| >= 1 && SplitLines(LinesText(tail)) == tail
    ensures SplitLines(LinesText([head] + tail)) == [head] + tail
  {
    var lines := [head] + tail;
    assert lines[0] == head && lines[1..] == tail;
    LinesTextCons(lines);
    SplitLinesCons(head, LinesText(tail));
  }

  lemma LinesTextCons(lines: seq<string>)
    requires |lines| >= 2
    ensures LinesText(lines) == lines[0] + "\n" + LinesText(lines[1..])
  {
  }

  /** The rewrite is idempotent: applied to its own output it changes nothing. */
  lemma EnsureImportSiteIdempotent(content: string)
    ensures EnsureImportSiteText(EnsureImportSiteText(content)) == EnsureImportSiteText(content)
  {
    var lines := SplitLines(content);
    var n := if HasImportSite(lines) then Rewritten(lines) else Rewritten(lines) + [IMPORT_SITE];
    EnsuredLinesShape(lines);
    SplitLinesText(n);
    assert SplitLines(LinesText(n)) == n;
  }

  /** The lines the rewrite writes: at least one, none with a line break,
      one of them `import site`, and each left alone by a second rewrite. */
  lemma EnsuredLinesShape(lines: seq<string>)
    requires forall k :: 0 <= k < |lines| ==> NoLineBreak(lines[k])
    ensures var n := if HasImportSite(lines) then Rewritten(lines) else Rewritten(lines) + [IMPORT_SITE];
      n != [] && (forall k :: 0 <= k < |n| ==> NoLineBreak(n[k])) && HasImportSite(n) && Rewritten(n) == n
  {
    ImportSiteFacts();
    var mapped := Rewritten(lines);
    var n := if HasImportSite(lines) then mapped else mapped + [IMPORT_SITE];
    if HasImportSite(lines) {
      var k :| 0 <= k < |lines| && IsImportSiteLine(lines[k]);
      assert IsImportSiteLine(n[k]);
    } else {
      assert IsImportSiteLine(n[|lines|]);
    }
    forall k | 0 <= k < |n| ensures RewriteLine(n[k]) == n[k] {
      if k < |lines| && IsCommentedImportSite(lines[k]) {
        assert n[k] == IMPORT_SITE;
      }
    }
  }

  /** A file without any import-site line gains exactly one, at the end. */
  lemma AppendsWhenMissing(content: string)
    requires !HasImportSite(SplitLines(content))
    ensures var out := SplitLines(EnsureImportSiteText(content));
      |out| == |SplitLines(content)| + 1 && out[|out| - 1] == IMPORT_SITE &&
      out[..|out| - 1] == SplitLines(content)
  {
    ImportSiteFacts();
    var lines := SplitLines(content);
    var mapped := Rewritten(lines);
    assert mapped == lines;
    var n := mapped + [IMPORT_SITE];
    SplitLinesText(n);
  }
}
