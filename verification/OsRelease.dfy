/** The switch version out of the os-release file. */
module OsRelease {
  import opened Wrappers
  import opened CStrings

  const NSTR := 80
  const OS_RELEASE_BUILD_NAME := "BUILD_ID"
  const OS_RELEASE_VERSION_NAME := "VERSION_ID"

  predicate IsSpace(c: char) {
    c in {' ', '\t', '\n', 11 as char, 12 as char, '\r'}
  }

  /** Where the first '=' of a line is. */
  function Equals(line: string): nat {
    if line == [] || line[0] == '=' then 0 else 1 + Equals(line[1..])
  }

  /** A value without the white space at its end. */
  function TrimRight(s: string): string {
    if s != [] && IsSpace(s[|s| - 1]) then TrimRight(s[..|s| - 1]) else s
  }

  /** Name and value of a line, if it has an '='. */
  function NameValue(line: string): Option<(string, string)> {
    var text := CString(line);
    EqualsBound(text);
    if Equals(text) == |text| then None
    else Some((text[..Equals(text)], TrimRight(text[Equals(text) + 1..])))
  }

  lemma {:induction false} EqualsBound(line: string)
    ensures Equals(line) <= |line|
    ensures Equals(line) < |line| ==> line[Equals(line)] == '='
    ensures forall i :: 0 <= i < Equals(line) ==> line[i] != '='
    decreases |line|
  {
    if line != [] && line[0] != '=' {
      EqualsBound(line[1..]);
      assert forall i :: 1 <= i < Equals(line) ==> line[i] == line[1..][i - 1];
    }
  }

  /** TrimRight cuts at the one place with only white space behind it and none right before it. */
  lemma {:induction false} TrimRightMeaning(s: string, r: string)
    ensures r == TrimRight(s) <==>
              && r <= s
              && (forall i :: |r| <= i < |s| ==> IsSpace(s[i]))
              && (r != [] ==> !IsSpace(r[|r| - 1]))
  {
    if s != [] && IsSpace(s[|s| - 1]) {
      TrimRightMeaning(s[..|s| - 1], r);
      if r <= s && (r != [] ==> !IsSpace(r[|r| - 1])) {
        assert r != s;
        assert r <= s[..|s| - 1];
      }
    }
  }

  /** White space is the six characters isspace knows in the C locale. */
  lemma SpacesAre(c: char)
    ensures IsSpace(c) <==> c as int == 32 || 9 <= c as int <= 13
  {
  }

  /** name and value are what a line says; tail is the white space behind them. */
  ghost predicate Splits(line: string, name: string, value: string, tail: string) {
    && line == name + "=" + (value + tail) && '=' !in name
    && (forall i :: 0 <= i < |tail| ==> IsSpace(tail[i]))
    && (value != [] ==> !IsSpace(value[|value| - 1]))
  }

  lemma NameValueIs(line: string, name: string, value: string, tail: string)
    requires '\0' !in line && Splits(line, name, value, tail)
    ensures NameValue(line) == Some((name, value))
  {
    NoNul(line);
    SplitOnce(line, name, value + tail);
    TrimRightMeaning(value + tail, value);
  }

  lemma SplitAt(line: string, at: nat)
    requires at < |line| && line[at] == '='
    ensures line == line[..at] + "=" + line[at + 1..]
  {
  }

  lemma SplitOff(s: string, value: string)
    requires value <= s
    ensures s == value + s[|value|..]
    ensures forall i :: 0 <= i < |s| - |value| ==> s[|value|..][i] == s[|value| + i]
  {
  }

  lemma NameValueSplits(line: string) returns (tail: string)
    requires '\0' !in line
    ensures var nv := NameValue(line);
            if nv.Some? then Splits(line, nv.value.0, nv.value.1, tail) else '=' !in line
  {
    NoNul(line);
    EqualsBound(line);
    var at := Equals(line);
    tail := [];
    if at < |line| {
      var name, rest := line[..at], line[at + 1..];
      var value := TrimRight(rest);
      TrimRightMeaning(rest, value);
      SplitAt(line, at);
      SplitOff(rest, value);
      tail := rest[|value|..];
      assert NameValue(line) == Some((name, value));
      assert '=' !in name;
    }
  }

  /** A line is split at its first '=', and the value loses the white space at its end; a line without
      an '=' says nothing. */
  lemma NameValueMeans(line: string, name: string, value: string)
    requires '\0' !in line
    ensures NameValue(line) == Some((name, value)) <==> exists tail :: Splits(line, name, value, tail)
    ensures NameValue(line) == None <==> '=' !in line
  {
    var tail := NameValueSplits(line);
    if exists t :: Splits(line, name, value, t) {
      var t :| Splits(line, name, value, t);
      NameValueIs(line, name, value, t);
    }
    if NameValue(line).Some? {
      assert line[|NameValue(line).value.0|] == '=';
    }
  }

  lemma {:induction false} NoNul(s: string)
    requires '\0' !in s
    ensures CString(s) == s
  {
    if s != [] {
      NoNul(s[1..]);
    }
  }

  lemma SplitOnce(line: string, name: string, rest: string)
    requires line == name + "=" + rest && '=' !in name
    ensures Equals(line) == |name| && line[..|name|] == name && line[|name| + 1..] == rest
  {
    EqualsBound(line);
    assert line[|name|] == '=';
    assert forall i :: 0 <= i < |name| ==> line[i] == name[i] && name[i] in name;
  }

  /** The value of the last line with this name; empty if there is none. */
  function LastValue(lines: seq<string>, name: string): string {
    if lines == [] then ""
    else
      var nv := NameValue(lines[|lines| - 1]);
      if nv.Some? && nv.value.0 == name then nv.value.1 else LastValue(lines[..|lines| - 1], name)
  }

  predicate Names(line: string, name: string) {
    NameValue(line).Some? && NameValue(line).value.0 == name
  }

  /** Line i is the last one with the name. */
  ghost predicate LastNamed(lines: seq<string>, name: string, i: int) {
    0 <= i < |lines| && Names(lines[i], name) && forall j :: i < j < |lines| ==> !Names(lines[j], name)
  }

  /** The last line with the name decides; without such a line the value is empty. */
  lemma {:induction false} LastValueMeaning(lines: seq<string>, name: string, i: int)
    ensures LastNamed(lines, name, i) ==> LastValue(lines, name) == NameValue(lines[i]).value.1
    ensures (forall j :: 0 <= j < |lines| ==> !Names(lines[j], name)) ==> LastValue(lines, name) == ""
  {
    if lines != [] && !Names(lines[|lines| - 1], name) {
      var rest := lines[..|lines| - 1];
      assert forall j :: 0 <= j < |rest| ==> rest[j] == lines[j];
      LastValueMeaning(rest, name, i);
    }
  }

  function VersionString(version: string, build: string): string {
    version + " (Build: " + build + ")"
  }

  /** strchr for '=', and the loop that drops white space from the end of the value. */
  method SplitLine(line: string) returns (nv: Option<(string, string)>)
    ensures nv == NameValue(line)
  {
    var text := CString(line);
    var at := 0;
    while at < |text| && text[at] != '='
      invariant at <= |text| && Equals(text) == at + Equals(text[at..])
    {
      assert text[at..][1..] == text[at + 1..];
      at := at + 1;
    }
    EqualsBound(text);
    if at == |text| {
      return None;
    }
    var name, value := text[..at], text[at + 1..];
    var i := |value| - 1;
    assert value[..|value|] == value;
    while i >= 0 && IsSpace(value[i])
      invariant -1 <= i < |value| && TrimRight(value) == TrimRight(value[..i + 1])
    {
      assert value[..i + 1][..i] == value[..i];
      i := i - 1;
    }
    return Some((name, value[..i + 1]));
  }

  /** sysd_update_sw_info, as far as the switch version goes: the lines of the file, or none if it
      cannot be opened; the result is what the column is set to, if it is set. */
  method UpdateSwInfo(file: Option<seq<string>>) returns (switchVersion: Option<string>)
    ensures switchVersion == if file.None? then None else SwitchVersion(file.value)
  {
    if file.None? {
      return None;
    }
    var lines := file.value;
    var versionId, buildId := "", "";
    for i := 0 to |lines|
      invariant versionId == Cut(LastValue(lines[..i], OS_RELEASE_VERSION_NAME), NSTR - 1)
      invariant buildId == Cut(LastValue(lines[..i], OS_RELEASE_BUILD_NAME), NSTR - 1)
    {
      assert lines[..i + 1][..i] == lines[..i];
      var nv := SplitLine(lines[i]);
      if nv.Some? {
        var (name, value) := nv.value;
        if name == OS_RELEASE_VERSION_NAME {
          versionId := Cut(value, NSTR - 1);
        } else if name == OS_RELEASE_BUILD_NAME {
          buildId := Cut(value, NSTR - 1);
        }
      }
    }
    assert lines[..|lines|] == lines;
    CutTwice(LastValue(lines, OS_RELEASE_VERSION_NAME), LastValue(lines, OS_RELEASE_BUILD_NAME));
    if buildId != "" && versionId != "" {
      return Some(Cut(VersionString(versionId, buildId), NSTR - 1));
    }
    return None;
  }

  /** What the column is meant to become: written exactly when both values are there, and the
      formatted string cut off once. */
  function SwitchVersion(lines: seq<string>): Option<string> {
    var version, build := LastValue(lines, OS_RELEASE_VERSION_NAME), LastValue(lines, OS_RELEASE_BUILD_NAME);
    if version != "" && build != "" then Some(Cut(VersionString(version, build), NSTR - 1)) else None
  }

  /** The column is written if and only if there are values for VERSION_ID and BUILD_ID, the last of each
      being non-empty, and then holds the first 79 characters of both, put together. */
  lemma SwitchVersionMeans(lines: seq<string>)
    ensures var version, build := LastValue(lines, "VERSION_ID"), LastValue(lines, "BUILD_ID");
            var full := version + " (Build: " + build + ")";
            SwitchVersion(lines) == if version == "" || build == "" then None
                                    else Some(if |full| > 79 then full[..79] else full)
  {
  }

  /** Cutting the parts before formatting makes no difference. */
  lemma CutTwice(version: string, build: string)
    ensures var n := NSTR - 1;
            Cut(VersionString(Cut(version, n), Cut(build, n)), n) == Cut(VersionString(version, build), n)
  {
    var n := NSTR - 1;
    var a, b := VersionString(Cut(version, n), Cut(build, n)), VersionString(version, build);
    if |version| <= n && |build| <= n {
    } else {
      assert |a| >= n && |b| >= n;
      forall i | 0 <= i < n
        ensures a[i] == b[i]
      {
        if i >= |version| + 9 {
          assert |version| <= n && a[i] == Cut(build, n)[i - |version| - 9] == build[i - |version| - 9];
        }
      }
      assert a[..n] == b[..n];
    }
  }
}
