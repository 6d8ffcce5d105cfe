/** NUL-terminated strings in character buffers: removing every occurrence of a substring in place,
    and lower-casing in place.
 */
module CStrings {

  /** The string a buffer holds: everything before the first NUL. */
  function CString(s: string): (r: string)
    ensures |r| <= |s|
  {
    if s == [] || s[0] == '\0' then [] else [s[0]] + CString(s[1..])
  }

  /** A string cut off after n characters, as strncpy, strncat and snprintf leave it in a buffer. */
  function Cut(s: string, n: nat): string {
    if |s| <= n then s else s[..n]
  }

  predicate OccursAt(s: string, pattern: string, i: nat) {
    i <= |s| && pattern <= s[i..]
  }

  /** Replace-all by the empty string, left to right, occurrences not overlapping: what Python's
      replace computes. */
  function RemoveAll(s: string, pattern: string): string
    requires pattern != []
    decreases |s|
  {
    if s == [] then []
    else if pattern <= s then RemoveAll(s[|pattern|..], pattern)
    else [s[0]] + RemoveAll(s[1..], pattern)
  }

  /** No occurrence starts in [from, to). */
  ghost predicate NoneIn(s: string, pattern: string, from: nat, to: nat) {
    forall j: nat :: from <= j < to ==> !OccursAt(s, pattern, j)
  }

  lemma OccursInSuffix(s: string, pattern: string, from: nat, j: nat)
    requires from <= |s|
    ensures OccursAt(s[from..], pattern, j) <==> OccursAt(s, pattern, from + j)
  {
    assert from + j <= |s| ==> s[from..][j..] == s[from + j..];
  }

  lemma NoneInSuffix(s: string, pattern: string, from: nat, to: nat)
    requires from <= to && from <= |s|
    ensures NoneIn(s, pattern, from, to) ==> NoneIn(s[from..], pattern, 0, to - from)
  {
    if NoneIn(s, pattern, from, to) {
      forall j: nat | j < to - from
        ensures !OccursAt(s[from..], pattern, j)
      {
        OccursInSuffix(s, pattern, from, j);
      }
    }
  }

  lemma Mismatch(s: string, pattern: string, at: nat, k: nat)
    requires k < |pattern| && at + k <= |s| && (at + k < |s| ==> s[at + k] != pattern[k])
    ensures !OccursAt(s, pattern, at)
  {
    assert k < |s[at..]| ==> s[at..][k] == s[at + k];
  }

  /** The text before the first occurrence stays, the rest is treated after the occurrence. */
  lemma {:induction false} RemoveAllFirst(s: string, pattern: string, i: nat)
    requires pattern != [] && i <= |s|
    requires NoneIn(s, pattern, 0, i)
    ensures RemoveAll(s, pattern) == s[..i] + RemoveAll(s[i..], pattern)
    decreases i
  {
    assert s[0..] == s;
    if i > 0 {
      assert !OccursAt(s, pattern, 0);
      NoneInSuffix(s, pattern, 1, i);
      RemoveAllFirst(s[1..], pattern, i - 1);
      SplitHead(s, i);
    }
  }

  lemma SplitHead(s: string, i: nat)
    requires 0 < i <= |s|
    ensures s[..i] == [s[0]] + s[1..][..i - 1] && s[1..][i - 1..] == s[i..]
  {
  }

  /** n is the length of the string in the buffer. */
  ghost predicate Terminated(buf: array<char>, n: nat)
    reads buf
  {
    n < buf.Length && buf[n] == '\0' && forall i :: 0 <= i < n ==> buf[i] != '\0'
  }

  /** strstr: the first occurrence at or after `from`. */
  method StrStr(buf: array<char>, ghost n: nat, from: nat, pattern: string) returns (found: bool, at: nat)
    requires Terminated(buf, n) && from <= n
    requires pattern != [] && '\0' !in pattern
    ensures found ==> from <= at && OccursAt(buf[..n], pattern, at)
    ensures NoneIn(buf[..n], pattern, from, if found then at else n)
  {
    at := from;
    while buf[at] != '\0'
      invariant from <= at <= n
      invariant NoneIn(buf[..n], pattern, from, at)
      decreases n - at
    {
      var k := 0;
      while k < |pattern| && buf[at + k] == pattern[k]
        invariant k <= |pattern| && at + k <= n
        invariant buf[at..at + k] == pattern[..k]
      {
        assert buf[at + k] != '\0';
        k := k + 1;
      }
      if k == |pattern| {
        assert buf[..n][at..][..k] == buf[at..at + k] == pattern;
        return true, at;
      }
      Mismatch(buf[..n], pattern, at, k);
      at := at + 1;
    }
    found := false;
  }

  /** strlen of the string that starts at `from`. */
  method StrLen(buf: array<char>, ghost n: nat, from: nat) returns (length: nat)
    requires Terminated(buf, n) && from <= n
    ensures length == n - from
  {
    length := 0;
    while buf[from + length] != '\0'
      invariant from + length <= n
      decreases n - length
    {
      length := length + 1;
    }
  }

  /** The buffer when everything before `upto` has been moved from `from` to `to`. */
  ghost function Moved(was: string, to: nat, from: nat, upto: nat): (r: string)
    requires to <= from <= upto <= |was|
    ensures |r| == |was|
  {
    was[..to] + was[from..upto] + was[upto - (from - to)..]
  }

  lemma MovedStep(was: string, to: nat, from: nat, upto: nat)
    requires to <= from <= upto < |was|
    ensures Moved(was, to, from, upto)[upto] == was[upto]
    ensures Moved(was, to, from, upto)[upto - (from - to) := was[upto]] == Moved(was, to, from, upto + 1)
  {
    var a, b := was[..to] + was[from..upto], was[upto - (from - to)..];
    assert |a| == upto - (from - to);
    assert Moved(was, to, from, upto) == a + b;
    assert was[from..upto + 1] == was[from..upto] + [was[upto]];
    assert (a + b)[|a| := was[upto]] == (a + [was[upto]]) + was[upto + 1 - (from - to)..];
  }

  lemma MovedAll(was: string, n: nat, to: nat, from: nat)
    requires to <= from <= n < |was| && was[n] == '\0' && '\0' !in was[..n]
    ensures var r, k := Moved(was, to, from, n + 1), n - (from - to);
            r[..k] == was[..n][..to] + was[..n][from..] && r[k] == '\0' && '\0' !in r[..k]
  {
    var r, k := Moved(was, to, from, n + 1), n - (from - to);
    assert was[from..n + 1] == was[from..n] + [was[n]];
    assert r[..k] == was[..to] + was[from..n];
    assert was[..n][..to] == was[..to] && was[..n][from..] == was[from..n];
    assert '\0' !in was[..to] by { assert forall c :: c in was[..to] ==> c in was[..n]; }
    assert '\0' !in was[from..n] by { assert forall c :: c in was[from..n] ==> c in was[..n]; }
  }

  /** memmove towards the front, character by character. */
  method Move(buf: array<char>, to: nat, from: nat, upto: nat)
    requires to <= from <= upto <= buf.Length
    modifies buf
    ensures buf[..] == Moved(old(buf[..]), to, from, upto)
  {
    ghost var was := buf[..];
    assert Moved(was, to, from, from) == was;
    for i := from to upto
      invariant buf[..] == Moved(was, to, from, i)
    {
      ghost var before := buf[..];
      MovedStep(was, to, from, i);
      assert before[i] == was[i];
      buf[i - (from - to)] := buf[i];
      assert buf[..] == before[i - (from - to) := was[i]];
    }
  }

  /** The tail of the string moves down, its terminating NUL included. */
  method MoveDown(buf: array<char>, ghost n: nat, to: nat, from: nat)
    requires Terminated(buf, n) && to <= from <= n
    modifies buf
    ensures Terminated(buf, n - (from - to))
    ensures buf[..n - (from - to)] == old(buf[..n])[..to] + old(buf[..n])[from..]
  {
    var length := StrLen(buf, n, from);
    ghost var was := buf[..];
    assert was[..n] == buf[..n];
    MovedAll(was, n, to, from);
    Move(buf, to, from, from + length + 1);
    ghost var k := n - (from - to);
    assert buf[..k] == buf[..][..k];
    assert forall j :: 0 <= j < k ==> buf[j] in buf[..k];
  }

  /** The text is what is left of the original, of which everything before `from` is done. */
  ghost predicate Shrunk(original: string, text: string, pattern: string, from: nat)
    requires pattern != []
  {
    from <= |text| && RemoveAll(original, pattern) == text[..from] + RemoveAll(text[from..], pattern)
  }

  /** The body of the loop: one occurrence goes. */
  method RemoveHereInPlace(buf: array<char>, ghost n: nat, basePath: string, ghost original: string,
                           ghost from: nat, at: nat)
    requires Terminated(buf, n) && basePath != []
    requires Shrunk(original, buf[..n], basePath, from)
    requires from <= at && OccursAt(buf[..n], basePath, at) && NoneIn(buf[..n], basePath, from, at)
    modifies buf
    ensures at + |basePath| <= n && Terminated(buf, n - |basePath|)
    ensures Shrunk(original, buf[..n - |basePath|], basePath, at)
  {
    RemoveOne(original, buf[..n], basePath, from, at);
    MoveDown(buf, n, at, at + |basePath|);
  }

  /** remove_base_path: search, close the gap, go on searching at the gap. */
  method RemoveBasePath(buf: array<char>, ghost n: nat, basePath: string) returns (ghost n': nat)
    requires Terminated(buf, n)
    requires basePath != [] && '\0' !in basePath
    modifies buf
    ensures n' <= n && Terminated(buf, n')
    ensures buf[..n'] == RemoveAll(old(buf[..n]), basePath)
  {
    n' := n;
    ghost var original := buf[..n];
    var found, at := StrStr(buf, n', 0, basePath);
    ghost var from: nat := 0;
    assert original[0..] == original && original[..0] == [];
    assert Shrunk(original, buf[..n'], basePath, from);
    while found
      invariant from <= n' <= n && Terminated(buf, n')
      invariant Shrunk(original, buf[..n'], basePath, from)
      invariant found ==> from <= at && OccursAt(buf[..n'], basePath, at)
      invariant NoneIn(buf[..n'], basePath, from, if found then at else n')
      decreases n', found
    {
      RemoveHereInPlace(buf, n', basePath, original, from, at);
      n', from := n' - |basePath|, at;
      found, at := StrStr(buf, n', at, basePath);
    }
    NoMore(buf[..n'], basePath, from);
  }

  /** One round of the loop. */
  lemma RemoveOne(original: string, text: string, pattern: string, from: nat, at: nat)
    requires pattern != [] && from <= at && OccursAt(text, pattern, at)
    requires NoneIn(text, pattern, from, at)
    requires Shrunk(original, text, pattern, from)
    ensures at + |pattern| <= |text|
    ensures Shrunk(original, text[..at] + text[at + |pattern|..], pattern, at)
  {
    NoneInSuffix(text, pattern, from, at);
    RemoveAllFirst(text[from..], pattern, at - from);
    RemoveHere(text, pattern, at);
    Pieces(text, from, at, RemoveAll(text[at..], pattern));
    Rejoined(text, at, at + |pattern|);
  }

  lemma Rejoined(text: string, to: nat, from: nat)
    requires to <= from <= |text|
    ensures var joined := text[..to] + text[from..];
            joined[..to] == text[..to] && joined[to..] == text[from..]
  {
  }

  lemma Pieces(text: string, from: nat, at: nat, tail: string)
    requires from <= at <= |text|
    ensures text[from..][at - from..] == text[at..]
    ensures text[..from] + (text[from..][..at - from] + tail) == text[..at] + tail
  {
    assert text[..at] == text[..from] + text[from..][..at - from];
  }

  lemma RemoveHere(text: string, pattern: string, at: nat)
    requires pattern != [] && OccursAt(text, pattern, at)
    ensures at + |pattern| <= |text|
    ensures RemoveAll(text[at..], pattern) == RemoveAll(text[at + |pattern|..], pattern)
  {
    assert text[at..][|pattern|..] == text[at + |pattern|..];
  }

  lemma NoMore(text: string, pattern: string, from: nat)
    requires pattern != [] && from <= |text| && NoneIn(text, pattern, from, |text|)
    ensures text[..from] + RemoveAll(text[from..], pattern) == text
  {
    NoneInSuffix(text, pattern, from, |text|);
    RemoveAllFirst(text[from..], pattern, |text| - from);
    Pieces(text, from, |text|, []);
    assert text[..|text|] + [] == text;
  }

  /** A text without the pattern stays as it is; otherwise the first occurrence goes, what is before it
      stays, and what is behind it is treated on its own. */
  lemma RemoveAllMeans(s: string, pattern: string, i: nat)
    requires pattern != []
    ensures NoneIn(s, pattern, 0, |s|) ==> RemoveAll(s, pattern) == s
    ensures NoneIn(s, pattern, 0, i) && OccursAt(s, pattern, i) ==>
              i + |pattern| <= |s| && RemoveAll(s, pattern) == s[..i] + RemoveAll(s[i + |pattern|..], pattern)
  {
    if NoneIn(s, pattern, 0, |s|) {
      assert s[0..] == s;
      NoMore(s, pattern, 0);
    }
    if NoneIn(s, pattern, 0, i) && OccursAt(s, pattern, i) {
      RemoveAllFirst(s, pattern, i);
      RemoveHere(s, pattern, i);
    }
  }

  lemma {:induction false} RemoveAllLength(s: string, pattern: string)
    requires pattern != []
    ensures |RemoveAll(s, pattern)| <= |s|
    decreases |s|
  {
    if s != [] {
      if pattern <= s {
        RemoveAllLength(s[|pattern|..], pattern);
      } else {
        RemoveAllLength(s[1..], pattern);
      }
    }
  }

  /** A text stays as it is if and only if the pattern does not occur in it. */
  lemma {:induction false} RemoveAllKeepsIff(s: string, pattern: string)
    requires pattern != []
    ensures RemoveAll(s, pattern) == s <==> NoneIn(s, pattern, 0, |s|)
    decreases |s|
  {
    if NoneIn(s, pattern, 0, |s|) {
      assert s[0..] == s;
      NoMore(s, pattern, 0);
    } else {
      var j: nat :| j < |s| && OccursAt(s, pattern, j);
      if pattern <= s {
        RemoveAllLength(s[|pattern|..], pattern);
      } else {
        assert s[0..] == s;
        OccursInSuffix(s, pattern, 1, j - 1);
        RemoveAllKeepsIff(s[1..], pattern);
      }
    }
  }

  // ----- lower case

  function ToLower(c: char): char {
    if 'A' <= c <= 'Z' then c - 'A' + 'a' else c
  }

  function Lower(s: string): (r: string)
    ensures |r| == |s|
    ensures forall i :: 0 <= i < |s| ==> r[i] == ToLower(s[i])
  {
    seq(|s|, i requires 0 <= i < |s| => ToLower(s[i]))
  }

  predicate IsUpper(c: char) {
    'A' <= c <= 'Z'
  }

  /** Capital letters move up by 32, where the small ones are, and everything else stays. */
  lemma LowerMeans(s: string)
    ensures forall i :: 0 <= i < |s| ==>
              Lower(s)[i] as int == s[i] as int + if 65 <= s[i] as int <= 90 then 32 else 0
    ensures forall i :: 0 <= i < |s| ==> !IsUpper(Lower(s)[i])
  {
  }

  /** Two texts are the same but for capital and small letters. */
  ghost predicate SameButCase(a: string, b: string) {
    |a| == |b| && forall i :: 0 <= i < |a| ==>
      || a[i] == b[i]
      || (IsUpper(a[i]) && b[i] as int == a[i] as int + 32)
      || (IsUpper(b[i]) && a[i] as int == b[i] as int + 32)
  }

  lemma LowerAgreesIff(a: string, b: string)
    ensures Lower(a) == Lower(b) <==> SameButCase(a, b)
  {
    LowerMeans(a);
    LowerMeans(b);
    if Lower(a) == Lower(b) {
      assert forall i :: 0 <= i < |a| ==> Lower(a)[i] == Lower(b)[i];
    }
  }

  /** What is in lower case is what a text with no capitals is that is the same but for case. */
  lemma LowerIsIff(a: string, name: string)
    ensures Lower(a) == name <==> SameButCase(a, name) && forall i :: 0 <= i < |name| ==> !IsUpper(name[i])
  {
    LowerMeans(a);
    LowerAgreesIff(a, name);
    if forall i :: 0 <= i < |name| ==> !IsUpper(name[i]) {
      assert Lower(name) == name;
    }
  }

  /** The loop that lower-cases a buffer in place, up to its NUL. */
  method LowerInPlace(buf: array<char>, ghost n: nat)
    requires Terminated(buf, n)
    modifies buf
    ensures Terminated(buf, n) && buf[..n] == Lower(old(buf[..n]))
    ensures forall j :: 0 <= j < n ==>
              buf[j] as int == old(buf[j]) as int + if 65 <= old(buf[j]) as int <= 90 then 32 else 0
  {
    var i := 0;
    while buf[i] != '\0'
      invariant i <= n && Terminated(buf, n)
      invariant forall j :: 0 <= j < i ==> buf[j] == ToLower(old(buf[j]))
      invariant forall j :: i <= j < n ==> buf[j] == old(buf[j])
      decreases n - i
    {
      buf[i] := ToLower(buf[i]);
      i := i + 1;
    }
  }
}
