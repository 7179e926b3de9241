/**
 * `extract_vars_from_file`: the names a file declares. Each line is stripped,
 * blank lines and `#` comments are skipped, and the anchored pattern
 * `^([A-Z_][A-Z0-9_]*)=` is tried; its group is added to the file's set.
 * The pattern is written out below as character classes.
 */
module Extractor {
  import opened Wrappers

  /** Python's `str.isspace` for one character: the fixed list of code points it accepts. */
  function IsSpace(c: char): (r: bool)
    ensures r ==> !IsNameChar(c) && c != '=' && c != '#'
  {
    var n := c as int;
    n == 0x20 || 0x09 <= n <= 0x0D || 0x1C <= n <= 0x1F || n == 0x85 || n == 0xA0
    || n == 0x1680 || 0x2000 <= n <= 0x200A || n == 0x2028 || n == 0x2029
    || n == 0x202F || n == 0x205F || n == 0x3000
  }

  /** The index of the first non-whitespace character of `s` at or after `i`, or `|s|`. */
  function SkipSpace(s: string, i: nat): (r: nat)
    requires i <= |s|
    ensures i <= r <= |s|
    ensures forall k :: i <= k < r ==> IsSpace(s[k])
    ensures r < |s| ==> !IsSpace(s[r])
    decreases |s| - i
  {
    if i < |s| && IsSpace(s[i]) then SkipSpace(s, i + 1) else i
  }

  /** The end of `s[lo..j]` once its trailing whitespace is dropped. */
  function SkipSpaceBack(s: string, lo: nat, j: nat): (r: nat)
    requires lo <= j <= |s|
    ensures lo <= r <= j
    ensures forall k :: r <= k < j ==> IsSpace(s[k])
    ensures r > lo ==> !IsSpace(s[r - 1])
  {
    if j > lo && IsSpace(s[j - 1]) then SkipSpaceBack(s, lo, j - 1) else j
  }

  /** Python's `line.strip()`. */
  function Strip(s: string): (r: string)
    ensures |r| <= |s|
    ensures r == [] || (!IsSpace(r[0]) && !IsSpace(r[|r| - 1]))
  {
    var lo := SkipSpace(s, 0);
    s[lo..SkipSpaceBack(s, lo, |s|)]
  }

  predicate AllSpace(s: string)
  {
    forall i :: 0 <= i < |s| ==> IsSpace(s[i])
  }

  /** Whitespace around a line does not matter: the stripped text is what is left inside it. */
  lemma StripIgnoresPadding(pre: string, t: string, post: string)
    requires AllSpace(pre) && AllSpace(post)
    requires t == [] || (!IsSpace(t[0]) && !IsSpace(t[|t| - 1]))
    ensures Strip(pre + t + post) == t
  {
    var s := pre + t + post;
    var lo := SkipSpace(s, 0);
    var hi := SkipSpaceBack(s, lo, |s|);
    if t == [] {
      assert forall k :: 0 <= k < |s| ==> IsSpace(s[k]);
      assert lo == |s|;
    } else {
      assert s[|pre|] == t[0];
      assert forall k :: 0 <= k < |pre| ==> IsSpace(s[k]);
      assert lo == |pre|;
      assert s[|pre| + |t| - 1] == t[|t| - 1];
      assert forall k :: |pre| + |t| <= k < |s| ==> IsSpace(s[k]);
      assert hi == |pre| + |t|;
      assert s[lo..hi] == t;
    }
  }

  /** `[A-Z_]`: a character that may begin a name. */
  predicate IsNameStart(c: char)
  {
    'A' <= c <= 'Z' || c == '_'
  }

  /** `[A-Z0-9_]`: a character that may continue a name. */
  predicate IsNameChar(c: char)
  {
    IsNameStart(c) || '0' <= c <= '9'
  }

  /** `[A-Z_][A-Z0-9_]*` as a whole string. */
  predicate IsVarName(s: string)
  {
    |s| > 0 && IsNameStart(s[0]) && forall i :: 1 <= i < |s| ==> IsNameChar(s[i])
  }

  /** `t` matches `^key=`, so the pattern's group would be `key`. */
  predicate Declares(t: string, key: string)
  {
    IsVarName(key) && |key| < |t| && t[..|key|] == key && t[|key|] == '='
  }

  /** The length of the longest prefix of `t` made of name characters. */
  function NameRunLength(t: string): (n: nat)
    ensures n <= |t|
    ensures forall i :: 0 <= i < n ==> IsNameChar(t[i])
    ensures n < |t| ==> !IsNameChar(t[n])
  {
    if |t| > 0 && IsNameChar(t[0]) then 1 + NameRunLength(t[1..]) else 0
  }

  /** `re.match(r'^([A-Z_][A-Z0-9_]*)=', t)` and its first group. */
  function MatchKey(t: string): (r: Option<string>)
    ensures r.Some? ==> Declares(t, r.value)
  {
    var n := NameRunLength(t);
    if 0 < n < |t| && IsNameStart(t[0]) && t[n] == '=' then Some(t[..n]) else None
  }

  /** The pattern matches exactly the declarations, and its group is the text before the first `=`. */
  lemma MatchKeyComplete(t: string, key: string)
    requires Declares(t, key)
    ensures MatchKey(t) == Some(key)
  {
  }

  /** The key one line of the file contributes, if any. */
  function KeyOf(line: string): (r: Option<string>)
    ensures r.Some? ==> IsVarName(r.value)
  {
    if IsBlankOrComment(line) then None else MatchKey(Strip(line))
  }

  /** The guard before the pattern: the stripped line is empty or starts with `#`. */
  predicate IsBlankOrComment(line: string)
  {
    var t := Strip(line);
    |t| == 0 || t[0] == '#'
  }

  /** A line contributes `key` iff its stripped form is `key=...` with `key` a valid name. */
  lemma KeyOfSpec(line: string, key: string)
    ensures KeyOf(line) == Some(key) <==> Declares(Strip(line), key)
  {
  }

  /** A declaration line, padded with whitespace on either side, records exactly its key. */
  lemma DeclarationYieldsKey(pre: string, key: string, value: string, post: string)
    requires AllSpace(pre) && AllSpace(post)
    requires IsVarName(key)
    requires value == [] || !IsSpace(value[|value| - 1])
    ensures KeyOf(pre + (key + "=" + value) + post) == Some(key)
  {
    var t := key + "=" + value;
    assert Strip(pre + t + post) == t by {
      assert !IsSpace(t[0]) && !IsSpace(t[|t| - 1]);
      StripIgnoresPadding(pre, t, post);
    }
    assert MatchKey(t) == Some(key) by {
      assert t[..|key|] == key;
      MatchKeyComplete(t, key);
    }
    assert t[0] == key[0];
  }

  /** The blank/comment guard never changes the outcome: the pattern rejects those lines anyway. */
  lemma CommentGuardRedundant(line: string)
    ensures KeyOf(line) == MatchKey(Strip(line))
  {
  }

  /** Blank and comment lines contribute nothing. */
  lemma BlankOrCommentDeclaresNothing(line: string)
    requires IsBlankOrComment(line)
    ensures KeyOf(line) == None
  {
  }

  /** A space before `=` means no match. */
  lemma SpaceBeforeEqualsRejected(line: string, key: string, rest: string)
    requires IsVarName(key)
    requires Strip(line) == key + " =" + rest
    ensures KeyOf(line) == None
  {
    var t := Strip(line);
    assert forall i :: 0 <= i < |key| ==> IsNameChar(t[i]) by {
      forall i | 0 <= i < |key|
        ensures IsNameChar(t[i])
      {
        assert t[i] == key[i];
      }
    }
    assert t[|key|] == ' ';
    assert NameRunLength(t) == |key|;
    CommentGuardRedundant(line);
  }

  /** A line whose stripped form starts with a character outside `[A-Z_]` (a lowercase key,
      an `export ` prefix) contributes nothing. */
  lemma BadFirstCharRejected(line: string)
    requires |Strip(line)| > 0 && !IsNameStart(Strip(line)[0])
    ensures KeyOf(line) == None
  {
  }

  /** What one file yields: the lines delivered before reading stopped, and the error
      that stopped it, if any (an error when opening the file delivers no lines). */
  datatype FileRead = FileRead(lines: seq<string>, error: Option<string>)

  /** What one line adds to the file's set. */
  function LineKeys(line: string): set<string>
  {
    if KeyOf(line).Some? then {KeyOf(line).value} else {}
  }

  /** The set of names the lines declare, built line by line. */
  function DeclaredKeys(lines: seq<string>): (keys: set<string>)
    ensures forall k :: k in keys ==> IsVarName(k)
    ensures |keys| <= |lines|
  {
    if |lines| == 0 then {}
    else DeclaredKeys(lines[..|lines| - 1]) + LineKeys(lines[|lines| - 1])
  }

  method ExtractVarsFromFile(file: FileRead) returns (vars: set<string>)
    ensures vars == DeclaredKeys(file.lines)
  {
    vars := {};
    for i := 0 to |file.lines|
      invariant vars == DeclaredKeys(file.lines[..i])
    {
      var line := Strip(file.lines[i]);
      assert file.lines[..i + 1][..i] == file.lines[..i];
      assert DeclaredKeys(file.lines[..i + 1]) == vars + LineKeys(file.lines[i]);
      if |line| > 0 && line[0] != '#' {
        var m := MatchKey(line);
        if m.Some? {
          vars := vars + {m.value};
        }
      }
    }
    assert file.lines[..|file.lines|] == file.lines;
  }

  /** Every name in the set is declared by some line. */
  lemma {:induction false} DeclaredKeysSound(lines: seq<string>, k: string)
    requires k in DeclaredKeys(lines)
    ensures exists i :: 0 <= i < |lines| && KeyOf(lines[i]) == Some(k)
  {
    var n := |lines| - 1;
    var init := lines[..n];
    if k in DeclaredKeys(init) {
      DeclaredKeysSound(init, k);
      var i :| 0 <= i < |init| && KeyOf(init[i]) == Some(k);
      assert init[i] == lines[i];
    } else {
      assert KeyOf(lines[n]) == Some(k);
    }
  }

  /** Every name a line declares is in the set, however often it is repeated. */
  lemma {:induction false} DeclaredKeysComplete(lines: seq<string>, i: nat)
    requires i < |lines| && KeyOf(lines[i]).Some?
    ensures KeyOf(lines[i]).value in DeclaredKeys(lines)
  {
    var n := |lines| - 1;
    var init := lines[..n];
    assert DeclaredKeys(lines) == DeclaredKeys(init) + LineKeys(lines[n]);
    if i < n {
      assert init[i] == lines[i];
      DeclaredKeysComplete(init, i);
      assert KeyOf(init[i]).value in DeclaredKeys(lines);
    } else {
      assert i == n;
      var key := KeyOf(lines[n]).value;
      assert LineKeys(lines[n]) == {key};
    }
  }

  /** Line order does not matter: any rearrangement of the lines declares the same set. */
  lemma DeclaredKeysOrderFree(a: seq<string>, b: seq<string>)
    requires multiset(a) == multiset(b)
    ensures DeclaredKeys(a) == DeclaredKeys(b)
  {
    forall k | k in DeclaredKeys(a)
      ensures k in DeclaredKeys(b)
    {
      DeclaredKeysSound(a, k);
      var i :| 0 <= i < |a| && KeyOf(a[i]) == Some(k);
      assert a[i] in multiset(b);
      var j :| 0 <= j < |b| && b[j] == a[i];
      DeclaredKeysComplete(b, j);
    }
    forall k | k in DeclaredKeys(b)
      ensures k in DeclaredKeys(a)
    {
      DeclaredKeysSound(b, k);
      var j :| 0 <= j < |b| && KeyOf(b[j]) == Some(k);
      assert b[j] in multiset(a);
      var i :| 0 <= i < |a| && a[i] == b[j];
      DeclaredKeysComplete(a, i);
    }
  }

  /** A file of only blank lines and comments declares nothing. */
  lemma {:induction false} CommentsOnlyDeclareNothing(lines: seq<string>)
    requires forall i :: 0 <= i < |lines| ==> IsBlankOrComment(lines[i])
    ensures DeclaredKeys(lines) == {}
  {
    if |lines| > 0 {
      CommentsOnlyDeclareNothing(lines[..|lines| - 1]);
      BlankOrCommentDeclaresNothing(lines[|lines| - 1]);
    }
  }
}
