/** `String.prototype.trim` as the question guard of App.tsx uses it
    (`!question.trim()`): a question made only of white space is no
    question. White space is the ECMAScript set: the WhiteSpace code points
    (tab, vertical tab, form feed, the byte-order mark and every space
    separator) and the LineTerminator code points. */
module Text {

  predicate IsSpace(c: char) {
    || c == '\t' || c == '\U{000B}' || c == '\U{000C}' || c == ' ' || c == '\U{00A0}' || c == '\U{FEFF}'
    || c == '\U{1680}' || ('\U{2000}' <= c <= '\U{200A}') || c == '\U{202F}' || c == '\U{205F}' || c == '\U{3000}'
    || c == '\n' || c == '\r' || c == '\U{2028}' || c == '\U{2029}'
  }

  predicate Blank(s: string) {
    forall i :: 0 <= i < |s| ==> IsSpace(s[i])
  }

  /** Drops the leading white space: what is left is a suffix of `s` that
      starts with a non-space, and only spaces were dropped. */
  function TrimStart(s: string): (r: string)
    ensures |r| <= |s| && r == s[|s| - |r|..]
    ensures r != [] ==> !IsSpace(r[0])
    ensures Blank(s[..|s| - |r|])
  {
    if s != [] && IsSpace(s[0]) then
      var rest := TrimStart(s[1..]);
      assert Blank(s[..|s| - |rest|]) by {
        forall i | 0 <= i < |s| - |rest|
          ensures IsSpace(s[i])
        {
          if i > 0 {
            assert s[i] == s[1..][..|s| - 1 - |rest|][i - 1];
          }
        }
      }
      rest
    else s
  }

  /** Drops the trailing white space: what is left is a prefix of `s` that
      ends with a non-space, and only spaces were dropped. */
  function TrimEnd(s: string): (r: string)
    ensures |r| <= |s| && r == s[..|r|]
    ensures r != [] ==> !IsSpace(r[|r| - 1])
    ensures Blank(s[|r|..])
  {
    if s != [] && IsSpace(s[|s| - 1]) then
      var rest := TrimEnd(s[..|s| - 1]);
      assert Blank(s[|rest|..]) by {
        forall i | |rest| <= i < |s|
          ensures IsSpace(s[i])
        {
          if i < |s| - 1 {
            assert s[i] == s[..|s| - 1][|rest|..][i - |rest|];
          }
        }
      }
      rest
    else s
  }

  function Trim(s: string): string {
    TrimEnd(TrimStart(s))
  }

  /** The guard `!question.trim()` holds exactly for the blank strings. */
  lemma TrimEmptyIffBlank(s: string)
    ensures Trim(s) == [] <==> Blank(s)
  {
    var start := TrimStart(s);
    if Trim(s) == [] {
      assert Blank(start[0..]);
      assert s == s[..|s| - |start|] + start;
    } else {
      assert !IsSpace(s[|s| - |start|]);
    }
  }

  /** Trimming keeps the text between the first and the last non-space. */
  lemma TrimKeepsInside(s: string)
    ensures var t := Trim(s);
      t == [] || (!IsSpace(t[0]) && !IsSpace(t[|t| - 1]))
  {
    var start := TrimStart(s);
    var t := TrimEnd(start);
    if t != [] {
      assert t[0] == start[0];
    }
  }
}
