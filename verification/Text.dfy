// Strings as Rust sees them: a Dafny `char` ranges over the Unicode scalar values, exactly like a
// Rust `char`, so a Rust `&str` is a `string` and only byte lengths need a function of their own.
module Text {

  datatype Option<+T> = None | Some(value: T)

  // ---------------------------------------------------------------- characters

  /** The White_Space property, which `str::trim` uses. */
  predicate IsWhitespace(c: char) {
    || '\U{9}' <= c <= '\U{d}' || c == ' ' || c == '\U{85}' || c == '\U{a0}' || c == '\U{1680}'
    || '\U{2000}' <= c <= '\U{200a}' || c == '\U{2028}' || c == '\U{2029}' || c == '\U{202f}'
    || c == '\U{205f}' || c == '\U{3000}'
  }

  /** General category Cc, which `char::is_control` tests. */
  predicate IsControl(c: char) {
    c <= '\U{1f}' || '\U{7f}' <= c <= '\U{9f}'
  }

  predicate IsDigit(c: char) {
    '0' <= c <= '9'
  }

  predicate IsAlphanumeric(c: char) {
    IsDigit(c) || 'a' <= c <= 'z' || 'A' <= c <= 'Z'
  }

  function LowerChar(c: char): char {
    if 'A' <= c <= 'Z' then (c as int + 32) as char else c
  }

  /** Lower case differs from the 26 capitals alone, by 32. */
  lemma LowerExactly(c: char)
    ensures LowerChar(c) != c <==> 65 <= c as int <= 90
    ensures LowerChar(c) != c ==> LowerChar(c) as int == c as int + 32
  {
  }

  const WHITESPACE := {0x9, 0xa, 0xb, 0xc, 0xd, 0x20, 0x85, 0xa0, 0x1680,
                       0x2000, 0x2001, 0x2002, 0x2003, 0x2004, 0x2005, 0x2006, 0x2007, 0x2008, 0x2009, 0x200a,
                       0x2028, 0x2029, 0x202f, 0x205f, 0x3000}

  /** The 25 white-space characters. */
  lemma WhitespaceExactly(c: char)
    ensures IsWhitespace(c) <==> c as int in WHITESPACE
  {
  }

  /** `str::to_ascii_lowercase`. */
  function Lower(s: string): (r: string)
    ensures |r| == |s| && forall i :: 0 <= i < |s| ==> r[i] == LowerChar(s[i])
  {
    seq(|s|, i requires 0 <= i < |s| => LowerChar(s[i]))
  }

  /** `str::len`: the length of the UTF-8 encoding in bytes. */
  function Utf8Len(s: string): (n: nat)
    ensures |s| <= n <= 4 * |s|
  {
    if s == "" then 0 else CharBytes(s[0]) + Utf8Len(s[1..])
  }

  function CharBytes(c: char): (n: nat)
    ensures 1 <= n <= 4
  {
    if c < '\U{80}' then 1 else if c < '\U{800}' then 2 else if c < '\U{10000}' then 3 else 4
  }

  /** UTF-8 takes the fewest bytes whose payload of 7, 11, 16 or 21 bits holds the character. */
  lemma CharBytesExactly(c: char, n: nat)
    ensures CharBytes(c) <= n <==> exists k: nat :: k <= n && Encodes(k, c)
  {
    assert Encodes(CharBytes(c), c) && forall k: nat :: k < CharBytes(c) ==> !Encodes(k, c);
  }

  predicate Encodes(bytes: nat, c: char) {
    || (bytes == 1 && c as int < 128) || (bytes == 2 && c as int < 2048) || (bytes == 3 && c as int < 65536)
    || bytes == 4
  }

  lemma {:induction false} Utf8LenConcat(a: string, b: string)
    ensures Utf8Len(a + b) == Utf8Len(a) + Utf8Len(b)
  {
    if a == "" {
      assert a + b == b;
    } else {
      assert (a + b)[1..] == a[1..] + b;
      Utf8LenConcat(a[1..], b);
    }
  }

  lemma {:induction false} Utf8LenAscii(s: string)
    requires forall i :: 0 <= i < |s| ==> s[i] < '\U{80}'
    ensures Utf8Len(s) == |s|
  {
    if s != "" {
      Utf8LenAscii(s[1..]);
    }
  }

  // ---------------------------------------------------------------- searching

  predicate StartsWith(s: string, p: string) {
    |p| <= |s| && s[..|p|] == p
  }

  predicate EndsWith(s: string, p: string) {
    |p| <= |s| && s[|s| - |p|..] == p
  }

  /** `p` occurs in `s` at index `i`. */
  predicate At(s: string, i: nat, p: string) {
    i + |p| <= |s| && forall k :: 0 <= k < |p| ==> p[k] == s[i + k]
  }

  /** `str::contains` for a string pattern. */
  predicate Contains(s: string, p: string) {
    exists i: nat :: i <= |s| && At(s, i, p)
  }

  lemma ContainsNeeds(s: string, p: string, c: char)
    requires c in p && c !in s
    ensures !Contains(s, p)
  {
  }

  /** The first position of `c`, or the length of `s`. */
  function Find(s: string, c: char): (i: nat)
    ensures i <= |s| && (i < |s| ==> s[i] == c) && forall j :: 0 <= j < i ==> s[j] != c
  {
    if s == "" || s[0] == c then 0 else 1 + Find(s[1..], c)
  }

  lemma FindUnique(s: string, c: char, i: nat)
    requires i <= |s| && (i < |s| ==> s[i] == c) && forall j :: 0 <= j < i ==> s[j] != c
    ensures Find(s, c) == i
  {
  }

  // ---------------------------------------------------------------- trimming

  function TrimStart(s: string): string {
    if s != "" && IsWhitespace(s[0]) then TrimStart(s[1..]) else s
  }

  function TrimEnd(s: string): string {
    if s != "" && IsWhitespace(s[|s| - 1]) then TrimEnd(s[..|s| - 1]) else s
  }

  lemma {:induction false} TrimStartIsSuffix(s: string)
    ensures var r := TrimStart(s);
            (r == "" || !IsWhitespace(r[0])) && |r| <= |s| && r == s[|s| - |r|..]
  {
    if s != "" && IsWhitespace(s[0]) {
      TrimStartIsSuffix(s[1..]);
    }
  }

  lemma {:induction false} TrimEndIsPrefix(s: string)
    ensures var r := TrimEnd(s);
            (r == "" || !IsWhitespace(r[|r| - 1])) && |r| <= |s| && r == s[..|r|]
  {
    if s != "" && IsWhitespace(s[|s| - 1]) {
      TrimEndIsPrefix(s[..|s| - 1]);
    }
  }

  /** `str::trim`. */
  function Trim(s: string): string {
    TrimEnd(TrimStart(s))
  }

  predicate Trimmed(s: string) {
    s == "" || (!IsWhitespace(s[0]) && !IsWhitespace(s[|s| - 1]))
  }

  lemma TrimIsPart(s: string)
    ensures forall c :: c in Trim(s) ==> c in s
  {
    TrimStartIsSuffix(s);
    TrimEndIsPrefix(TrimStart(s));
  }

  lemma TrimOfTrimmed(s: string)
    requires Trimmed(s)
    ensures Trim(s) == s
  {
  }

  lemma TrimIsTrimmed(s: string)
    ensures Trimmed(Trim(s))
  {
    var t := TrimStart(s);
    TrimStartIsSuffix(s);
    TrimEndIsPrefix(t);
    assert TrimEnd(t) != "" ==> TrimEnd(t)[0] == t[0];
  }

  /** A leading character that is not white space stays where it is. */
  lemma {:induction false} TrimKeepsHead(s: string)
    requires s != "" && !IsWhitespace(s[0])
    ensures Trim(s) != "" && Trim(s)[0] == s[0]
  {
    assert TrimStart(s) == s;
    TrimEndKeepsHead(s);
  }

  lemma {:induction false} TrimEndKeepsHead(s: string)
    requires s != "" && !IsWhitespace(s[0])
    ensures TrimEnd(s) != "" && TrimEnd(s)[0] == s[0]
  {
    if IsWhitespace(s[|s| - 1]) {
      TrimEndKeepsHead(s[..|s| - 1]);
    }
  }

  lemma {:induction false} TrimStartSnoc(s: string, c: char)
    ensures TrimStart(s + [c]) == if TrimStart(s) == "" && IsWhitespace(c) then "" else TrimStart(s) + [c]
  {
    if s == "" {
      assert s + [c] == [c];
      assert [c][1..] == "";
    } else if IsWhitespace(s[0]) {
      assert (s + [c])[1..] == s[1..] + [c];
      TrimStartSnoc(s[1..], c);
    }
  }

  /** White space at the end of a string is invisible to `Trim`. */
  lemma TrimSnoc(s: string, c: char)
    requires IsWhitespace(c)
    ensures Trim(s + [c]) == Trim(s)
  {
    TrimStartSnoc(s, c);
    var t := TrimStart(s);
    if TrimStart(s + [c]) != "" {
      assert (t + [c])[..|t + [c]| - 1] == t;
    }
  }

  /** Trimming the end of a string never reaches past a character that is not white space. */
  lemma {:induction false} TrimEndKeepsPrefix(a: string, b: string)
    requires a != "" && !IsWhitespace(a[|a| - 1])
    ensures |TrimEnd(a + b)| >= |a| && TrimEnd(a + b)[..|a|] == a
  {
    if b == "" {
      assert a + b == a;
    } else {
      var s := a + b;
      assert s[..|s| - 1] == a + b[..|b| - 1];
      TrimEndKeepsPrefix(a, b[..|b| - 1]);
    }
  }

  // ---------------------------------------------------------------- lines

  function StripCr(l: string): string {
    if l != "" && l[|l| - 1] == '\r' then l[..|l| - 1] else l
  }

  function StripCrs(ls: seq<string>): (r: seq<string>)
    ensures |r| == |ls| && forall i :: 0 <= i < |ls| ==> r[i] == StripCr(ls[i])
  {
    seq(|ls|, i requires 0 <= i < |ls| => StripCr(ls[i]))
  }

  /** `str::lines`: a line ends at `\n`, and one `\r` before that `\n` goes with it. */
  function Lines(s: string): seq<string> {
    if s == "" then []
    else
      var i := Find(s, '\n');
      if i == |s| then [s] else [StripCr(s[..i])] + Lines(s[i + 1..])
  }

  /** Every line followed by `\n`. */
  function Unlines(ls: seq<string>): string {
    if ls == [] then "" else ls[0] + "\n" + Unlines(ls[1..])
  }

  ghost predicate NoNewlines(ls: seq<string>) {
    forall l :: l in ls ==> '\n' !in l
  }

  /** No line ends in a carriage return that a second reading would swallow. */
  ghost predicate CrFree(ls: seq<string>) {
    forall i :: 0 <= i < |ls| ==> StripCr(ls[i]) == ls[i]
  }

  lemma {:induction false} LinesHaveNoNewlines(s: string)
    ensures NoNewlines(Lines(s))
  {
    if s != "" {
      var i := Find(s, '\n');
      if i < |s| {
        LinesHaveNoNewlines(s[i + 1..]);
      }
    }
  }

  lemma {:induction false} UnlinesConcat(a: seq<string>, b: seq<string>)
    ensures Unlines(a + b) == Unlines(a) + Unlines(b)
  {
    if a == [] {
      assert a + b == b;
    } else {
      assert (a + b)[1..] == a[1..] + b;
      UnlinesConcat(a[1..], b);
    }
  }

  /** Writing lines and reading them back loses at most one trailing `\r` a line. */
  lemma {:induction false} LinesOfUnlines(ls: seq<string>)
    requires NoNewlines(ls)
    ensures Lines(Unlines(ls)) == StripCrs(ls)
  {
    if ls != [] {
      var s := Unlines(ls);
      assert ls[0] in ls;
      FindUnique(s, '\n', |ls[0]|);
      assert s[..|ls[0]|] == ls[0];
      assert s[|ls[0]| + 1..] == Unlines(ls[1..]);
      LinesOfUnlines(ls[1..]);
    }
  }

  lemma CrFreeLines(ls: seq<string>)
    requires CrFree(ls)
    ensures StripCrs(ls) == ls
  {
  }

  /** The rewritten text is stable exactly when no carriage return is left to swallow. */
  lemma {:induction false} StripCrsShorter(ls: seq<string>)
    ensures |Unlines(StripCrs(ls))| <= |Unlines(ls)|
    ensures |Unlines(StripCrs(ls))| == |Unlines(ls)| <==> CrFree(ls)
  {
    if ls != [] {
      assert StripCrs(ls)[1..] == StripCrs(ls[1..]);
      StripCrsShorter(ls[1..]);
      assert CrFree(ls) <==> StripCr(ls[0]) == ls[0] && CrFree(ls[1..]) by {
        if StripCr(ls[0]) == ls[0] && CrFree(ls[1..]) {
          forall i | 0 <= i < |ls| ensures StripCr(ls[i]) == ls[i] {
            if i > 0 {
              assert ls[i] == ls[1..][i - 1];
            }
          }
        }
        if CrFree(ls) {
          forall i | 0 <= i < |ls[1..]| ensures StripCr(ls[1..][i]) == ls[1..][i] {
            assert ls[1..][i] == ls[i + 1];
          }
        }
      }
    }
  }

  lemma TrimOfStripCr(l: string)
    ensures Trim(StripCr(l)) == Trim(l)
  {
    if l != "" && l[|l| - 1] == '\r' {
      assert l == StripCr(l) + ['\r'];
      TrimSnoc(StripCr(l), '\r');
    }
  }

  // ---------------------------------------------------------------- substrings and lines

  ghost predicate SomeLineContains(ls: seq<string>, p: string) {
    exists i :: 0 <= i < |ls| && Contains(ls[i], p)
  }

  /** A pattern that avoids line ends cannot straddle two pieces joined by a newline. */
  lemma ContainsAcross(a: string, b: string, p: string)
    requires '\n' !in p && p != ""
    ensures Contains(a + "\n" + b, p) <==> Contains(a, p) || Contains(b, p)
  {
    var s := a + "\n" + b;
    forall i: nat | i <= |a| < i + |p| ensures !At(s, i, p) {
      assert p[|a| - i] in p;
    }
    if Contains(s, p) {
      var i: nat :| i <= |s| && At(s, i, p);
      assert if i + |p| <= |a| then At(a, i, p) else At(b, i - |a| - 1, p);
    }
    if Contains(a, p) {
      var i: nat :| i <= |a| && At(a, i, p);
      assert At(s, i, p);
    }
    if Contains(b, p) {
      var i: nat :| i <= |b| && At(b, i, p);
      assert At(s, i + |a| + 1, p);
    }
  }

  lemma ContainsStripCr(l: string, p: string)
    requires '\r' !in p && p != ""
    ensures Contains(StripCr(l), p) <==> Contains(l, p)
  {
    var c := StripCr(l);
    if Contains(c, p) {
      var i: nat :| i <= |c| && At(c, i, p);
      assert At(l, i, p);
    }
    if Contains(l, p) {
      var i: nat :| i <= |l| && At(l, i, p);
      assert p[|p| - 1] == l[i + |p| - 1];
      assert At(c, i, p);
    }
  }

  lemma SomeLineCons(ls: seq<string>, p: string)
    requires ls != []
    ensures SomeLineContains(ls, p) <==> Contains(ls[0], p) || SomeLineContains(ls[1..], p)
  {
  }

  lemma SomeLineConcat(a: seq<string>, b: seq<string>, p: string)
    ensures SomeLineContains(a + b, p) <==> SomeLineContains(a, p) || SomeLineContains(b, p)
  {
    if SomeLineContains(a, p) {
      var i :| 0 <= i < |a| && Contains(a[i], p);
      assert Contains((a + b)[i], p);
    }
    if SomeLineContains(b, p) {
      var i :| 0 <= i < |b| && Contains(b[i], p);
      assert Contains((a + b)[|a| + i], p);
    }
    if SomeLineContains(a + b, p) {
      var i :| 0 <= i < |a + b| && Contains((a + b)[i], p);
      assert if i < |a| then Contains(a[i], p) else Contains(b[i - |a|], p);
    }
  }

  /** A one-line pattern occurs in a text exactly when it occurs in one of its lines. */
  lemma {:induction false} ContainsByLine(s: string, p: string)
    requires '\n' !in p && '\r' !in p && p != ""
    ensures Contains(s, p) <==> SomeLineContains(Lines(s), p)
  {
    if s == "" {
    } else {
      var i := Find(s, '\n');
      SomeLineCons(Lines(s), p);
      if i < |s| {
        assert s == s[..i] + "\n" + s[i + 1..];
        ContainsAcross(s[..i], s[i + 1..], p);
        ContainsStripCr(s[..i], p);
        assert Lines(s)[1..] == Lines(s[i + 1..]);
        ContainsByLine(s[i + 1..], p);
      } else {
        assert Lines(s) == [s];
        assert !SomeLineContains(Lines(s)[1..], p);
      }
    }
  }

  lemma {:induction false} ContainsInUnlines(ls: seq<string>, p: string)
    requires '\n' !in p && p != ""
    ensures Contains(Unlines(ls), p) <==> SomeLineContains(ls, p)
  {
    if ls == [] {
    } else {
      ContainsAcross(ls[0], Unlines(ls[1..]), p);
      assert Unlines(ls) == ls[0] + "\n" + Unlines(ls[1..]);
      ContainsInUnlines(ls[1..], p);
      SomeLineCons(ls, p);
    }
  }
}
