/** The one validation rule the save path applies, and the JavaScript
    `String.prototype.trim` it relies on. */
module Validation {

  /** The message of the error event raised when the rule fails. */
  const LastNameBlankMessage := "Last Name value cannot be blank."

  /** The characters `trim` strips: ECMAScript's WhiteSpace (tab, vertical tab,
      form feed, zero-width no-break space and every space separator of
      Unicode category Zs) and LineTerminator (LF, CR, U+2028, U+2029). */
  predicate IsTrimmed(c: char)
  {
    c == '\t' || c == '\n' || c == '\U{000B}' || c == '\U{000C}' || c == '\r' ||
    c == ' ' || c == '\U{00A0}' || c == '\U{1680}' ||
    ('\U{2000}' <= c <= '\U{200A}') ||
    c == '\U{2028}' || c == '\U{2029}' || c == '\U{202F}' || c == '\U{205F}' ||
    c == '\U{3000}' || c == '\U{FEFF}'
  }

  /** True when every character of `s` is one `trim` strips. */
  ghost predicate Blank(s: string)
  {
    forall i :: 0 <= i < |s| ==> IsTrimmed(s[i])
  }

  /** `r` is the slice of `s` starting at `i`, and every character of `s`
      before or after it is trimmable. */
  ghost predicate SliceBetweenBlanks(s: string, i: nat, r: string)
  {
    i + |r| <= |s| && s[i..i + |r|] == r && Blank(s[..i]) && Blank(s[i + |r|..])
  }

  /** `s` without its leading trimmable characters. */
  function TrimStart(s: string): (r: string)
    ensures |r| <= |s| && r == s[|s| - |r|..]
    ensures r == [] || !IsTrimmed(r[0])
    ensures Blank(s[..|s| - |r|])
  {
    if s != [] && IsTrimmed(s[0]) then
      var r := TrimStart(s[1..]);
      assert s[..|s| - |r|] == [s[0]] + s[1..][..|s[1..]| - |r|];
      r
    else s
  }

  /** `s` without its trailing trimmable characters. */
  function TrimEnd(s: string): (r: string)
    ensures |r| <= |s| && r == s[..|r|]
    ensures r == [] || !IsTrimmed(r[|r| - 1])
    ensures Blank(s[|r|..])
  {
    if s != [] && IsTrimmed(s[|s| - 1]) then
      var r := TrimEnd(s[..|s| - 1]);
      assert s[|r|..] == s[..|s| - 1][|r|..] + [s[|s| - 1]];
      r
    else s
  }

  /** `s.trim()`: the slice of `s` that starts after its leading run of
      trimmable characters (of length `i`) and is followed by trimmable
      characters only; when it is not empty it neither starts nor ends with
      a trimmable character. */
  function Trim(s: string): (r: string)
    ensures |r| <= |s|
    ensures SliceBetweenBlanks(s, |s| - |TrimStart(s)|, r)
    ensures r == [] || (!IsTrimmed(r[0]) && !IsTrimmed(r[|r| - 1]))
  {
    var a := TrimStart(s);
    var t := TrimEnd(a);
    BlankAround(s, a, t);
    TrimmedEnds(a, t);
    t
  }

  /** A prefix `t` of `a` that ends with a non-trimmable character, when `a`
      starts with one, starts and ends with one. */
  lemma TrimmedEnds(a: string, t: string)
    requires a == [] || !IsTrimmed(a[0])
    requires |t| <= |a| && t == a[..|t|] && (t == [] || !IsTrimmed(t[|t| - 1]))
    ensures t == [] || (!IsTrimmed(t[0]) && !IsTrimmed(t[|t| - 1]))
  {
    if t != [] {
      assert t[0] == a[0];
    }
  }

  /** A blank-bounded suffix `a` of `s`, cut to a blank-bounded prefix `t`,
      is the slice of `s` after its first `|s| - |a|` characters, with blanks
      on both sides. */
  lemma BlankAround(s: string, a: string, t: string)
    requires |a| <= |s| && a == s[|s| - |a|..] && Blank(s[..|s| - |a|])
    requires |t| <= |a| && t == a[..|t|] && Blank(a[|t|..])
    ensures SliceBetweenBlanks(s, |s| - |a|, t)
  {
    var i := |s| - |a|;
    assert s[i..][..|t|] == s[i..i + |t|] && s[i..][|t|..] == s[i + |t|..];
  }

  /** `s.trim() === ""` holds exactly when `s` consists of trimmable characters only. */
  lemma TrimEmptyIffBlank(s: string)
    ensures Trim(s) == "" <==> Blank(s)
  {
    var a := TrimStart(s);
    if Trim(s) == "" {
      assert a[0..] == a;
      assert a == [];
      assert s[..|s|] == s;
    }
    if Blank(s) {
      BlankTrimsAway(s);
    }
  }

  /** A blank string trims to nothing from the start alone. */
  lemma {:induction false} BlankTrimsAway(s: string)
    requires Blank(s)
    ensures TrimStart(s) == []
    decreases |s|
  {
    if s != [] {
      assert IsTrimmed(s[0]);
      assert Blank(s[1..]) by {
        forall i | 0 <= i < |s[1..]| ensures IsTrimmed(s[1..][i]) {
          assert s[1..][i] == s[i + 1];
        }
      }
      BlankTrimsAway(s[1..]);
    }
  }

  /** `isValid`: the save is refused only when the last edited field is
      LastName and its value is blank. */
  function IsValid(fieldName: string, value: string): (ok: bool)
    ensures !ok <==> fieldName == "LastName" && Blank(value)
  {
    TrimEmptyIffBlank(value);
    !(fieldName == "LastName" && Trim(value) == "")
  }
}
