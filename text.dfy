/**
 * The string operations the task store and the pages call: `String.prototype.trim`,
 * `toLowerCase` (on ASCII letters) and `includes`.
 */
module Text {

  /**
   * The characters `trim` removes: ECMAScript WhiteSpace (tab, vertical tab, form
   * feed, space, no-break space, byte order mark and the other Unicode space
   * separators) and LineTerminator (line feed, carriage return, line and
   * paragraph separators).
   */
  predicate IsSpace(c: char)
  {
    || c == '\t' || c == '\n' || c == '\U{000B}' || c == '\U{000C}' || c == '\r' || c == ' '
    || c == '\U{00A0}' || c == '\U{1680}' || ('\U{2000}' <= c <= '\U{200A}')
    || c == '\U{2028}' || c == '\U{2029}' || c == '\U{202F}' || c == '\U{205F}'
    || c == '\U{3000}' || c == '\U{FEFF}'
  }

  /** Every character of `s` is white space (so `s.trim()` is empty). */
  predicate IsBlank(s: string)
  {
    forall i :: 0 <= i < |s| ==> IsSpace(s[i])
  }

  /** `s` without its leading white space: the longest suffix that does not start with a space. */
  function TrimStart(s: string): (r: string)
    ensures |r| <= |s| && r == s[|s| - |r|..]
    ensures IsBlank(s[..|s| - |r|])
    ensures r == [] || !IsSpace(r[0])
  {
    if s != [] && IsSpace(s[0]) then
      var r := TrimStart(s[1..]);
      assert s[..|s| - |r|] == [s[0]] + s[1..][..|s[1..]| - |r|];
      r
    else s
  }

  /** `s` without its trailing white space: the longest prefix that does not end with a space. */
  function TrimEnd(s: string): (r: string)
    ensures |r| <= |s| && r == s[..|r|]
    ensures IsBlank(s[|r|..])
    ensures r == [] || !IsSpace(r[|r| - 1])
  {
    if s != [] && IsSpace(s[|s| - 1]) then
      var r := TrimEnd(s[..|s| - 1]);
      assert s[|r|..] == s[..|s| - 1][|r|..] + [s[|s| - 1]];
      r
    else s
  }

  /** `s.trim()`. */
  function Trim(s: string): string
  {
    TrimEnd(TrimStart(s))
  }

  /** `q` occurs in `s` starting at offset `i`. */
  predicate OccursAt(s: string, q: string, i: int)
  {
    0 <= i <= |s| - |q| && s[i..i + |q|] == q
  }

  /** The result of `trim` is a slice of its input that neither starts nor ends with white space. */
  lemma TrimIsInnerSlice(s: string)
    ensures exists a :: OccursAt(s, Trim(s), a)
    ensures Trim(s) != [] ==> !IsSpace(Trim(s)[0]) && !IsSpace(Trim(s)[|Trim(s)| - 1])
  {
    var t := TrimStart(s);
    var r := TrimEnd(t);
    var a := |s| - |t|;
    assert r == Trim(s);
    assert t == s[a..];
    assert r == t[..|r|];
    assert s[a..][..|r|] == s[a..a + |r|];
    assert OccursAt(s, r, a);
    if r != [] {
      assert r[0] == t[0];
    }
  }

  /** Two blank strings make a blank string. */
  lemma BlankConcat(a: string, b: string)
    requires IsBlank(a) && IsBlank(b)
    ensures IsBlank(a + b)
  {
    forall i | 0 <= i < |a + b| ensures IsSpace((a + b)[i]) {
      if i < |a| {
        assert (a + b)[i] == a[i];
      } else {
        assert (a + b)[i] == b[i - |a|];
      }
    }
  }

  /** `s.trim()` is empty exactly when `s` is all white space. */
  lemma TrimEmptyIffBlank(s: string)
    ensures Trim(s) == [] <==> IsBlank(s)
  {
    var t := TrimStart(s);
    var k := |s| - |t|;
    if Trim(s) == [] {
      assert t[0..] == t;
      assert s == s[..k] + t;
      BlankConcat(s[..k], t);
    } else {
      TrimIsInnerSlice(s);
      var a :| OccursAt(s, Trim(s), a);
      assert s[a] == Trim(s)[0];
    }
  }

  /** Trimming twice is trimming once. */
  lemma TrimIdempotent(s: string)
    ensures Trim(Trim(s)) == Trim(s)
  {
    var t := Trim(s);
    assert TrimStart(t) == t;
    assert TrimEnd(t) == t;
  }

  /** `c.toLowerCase()` on ASCII: 'A'..'Z' become 'a'..'z', every other character is kept. */
  function LowerChar(c: char): char
  {
    if 'A' <= c <= 'Z' then (c as int + 32) as char else c
  }

  /** `s.toLowerCase()`, character by character. */
  function ToLower(s: string): string
  {
    if s == [] then [] else [LowerChar(s[0])] + ToLower(s[1..])
  }

  /** Lower-casing keeps the length, lowers each character in place, and is idempotent. */
  lemma {:induction false} ToLowerIsLower(s: string)
    ensures |ToLower(s)| == |s|
    ensures forall i :: 0 <= i < |s| ==> ToLower(s)[i] == LowerChar(s[i]) && !('A' <= ToLower(s)[i] <= 'Z')
    ensures ToLower(ToLower(s)) == ToLower(s)
  {
    if s != [] {
      ToLowerIsLower(s[1..]);
    }
  }

  /** `q` is a prefix of `s`. */
  predicate StartsWith(s: string, q: string)
  {
    |q| <= |s| && s[..|q|] == q
  }

  /** `s.includes(q)`: `q` starts at some position of `s` (the empty string is in every string). */
  predicate Includes(s: string, q: string)
  {
    StartsWith(s, q) || (s != [] && Includes(s[1..], q))
  }

  /** `q` occurs somewhere in `s`. */
  ghost predicate Occurs(s: string, q: string)
  {
    exists i :: OccursAt(s, q, i)
  }

  /** `includes` holds exactly when `q` is the slice of `s` at some offset. */
  lemma {:induction false} IncludesIffOccurs(s: string, q: string)
    ensures Includes(s, q) <==> Occurs(s, q)
  {
    if StartsWith(s, q) {
      assert OccursAt(s, q, 0);
    } else if s == [] {
      assert |q| > 0;
    } else {
      IncludesIffOccurs(s[1..], q);
      if Occurs(s, q) {
        var i :| OccursAt(s, q, i);
        assert i != 0;
        assert s[1..][i - 1..i - 1 + |q|] == q;
        assert OccursAt(s[1..], q, i - 1);
      }
      if Includes(s[1..], q) {
        var j :| OccursAt(s[1..], q, j);
        assert s[j + 1..j + 1 + |q|] == q;
        assert OccursAt(s, q, j + 1);
      }
    }
  }
}
