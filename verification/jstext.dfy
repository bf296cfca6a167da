/**
  The JavaScript string built-ins the car normaliser and the valuation
  service rely on, as pure functions over `string` (a `seq<char>`):
  `toUpperCase`/`toLowerCase` (ASCII and Latin-1 letters), `split(' ')`,
  `join(' ')`, `trim()` and `startsWith`.
 */
module JsText {

  datatype Option<+T> = None | Some(value: T)

  /** The characters `String.prototype.trim` removes: ECMAScript WhiteSpace and LineTerminator. */
  predicate IsJsSpace(c: char) {
    || c == ' ' || c == '\t' || c == '\n' || c == '\r'
    || c == '\U{000B}' || c == '\U{000C}' || c == '\U{00A0}' || c == '\U{1680}'
    || ('\U{2000}' <= c <= '\U{200A}')
    || c == '\U{2028}' || c == '\U{2029}' || c == '\U{202F}' || c == '\U{205F}'
    || c == '\U{3000}' || c == '\U{FEFF}'
  }

  predicate AllSpace(s: string) {
    forall i :: 0 <= i < |s| ==> IsJsSpace(s[i])
  }

  predicate IsLowerLetter(c: char) {
    ('a' <= c <= 'z') || ('\U{00E0}' <= c <= '\U{00FE}' && c != '\U{00F7}')
  }

  predicate IsUpperLetter(c: char) {
    ('A' <= c <= 'Z') || ('\U{00C0}' <= c <= '\U{00DE}' && c != '\U{00D7}')
  }

  /** In both ASCII and Latin-1 a letter's two cases lie 32 code points apart. */
  function UpperChar(c: char): (u: char)
    ensures IsLowerLetter(c) ==> IsUpperLetter(u) && u as int == c as int - 32
    ensures !IsLowerLetter(c) ==> u == c
  {
    if IsLowerLetter(c) then (c as int - 32) as char else c
  }

  function LowerChar(c: char): (l: char)
    ensures IsUpperLetter(c) ==> IsLowerLetter(l) && l as int == c as int + 32
    ensures !IsUpperLetter(c) ==> l == c
  {
    if IsUpperLetter(c) then (c as int + 32) as char else c
  }

  predicate NoLowerLetter(s: string) {
    forall i :: 0 <= i < |s| ==> !IsLowerLetter(s[i])
  }

  predicate NoUpperLetter(s: string) {
    forall i :: 0 <= i < |s| ==> !IsUpperLetter(s[i])
  }

  /**
    `s.toUpperCase()`: no lower-case letter is left, each character is the
    input's character up to case, and a string without lower-case letters is
    returned as it is. These three facts determine the result.
   */
  function Upper(s: string): (r: string)
    ensures |r| == |s| && NoLowerLetter(r)
    ensures forall i :: 0 <= i < |s| ==> LowerChar(r[i]) == LowerChar(s[i])
    ensures NoLowerLetter(s) ==> r == s
  {
    seq(|s|, i requires 0 <= i < |s| => UpperChar(s[i]))
  }

  /** `s.toLowerCase()`: the mirror image of `Upper`. */
  function Lower(s: string): (r: string)
    ensures |r| == |s| && NoUpperLetter(r)
    ensures forall i :: 0 <= i < |s| ==> UpperChar(r[i]) == UpperChar(s[i])
    ensures NoUpperLetter(s) ==> r == s
  {
    seq(|s|, i requires 0 <= i < |s| => LowerChar(s[i]))
  }

  /** Upper-casing an upper-cased string changes nothing. */
  lemma UpperIdempotent(s: string)
    ensures Upper(Upper(s)) == Upper(s)
  {
  }

  /** Case changes never create or remove a space, so they commute with `split(' ')`. */
  lemma {:induction false} UpperSplit(s: string)
    ensures Split(Upper(s)) == MapUpper(Split(s))
    decreases |s|
  {
    if |s| > 0 {
      UpperSplit(s[1..]);
      if s[0] != ' ' {
        UpperSplitWord(s);
      } else {
        UpperSplitSpace(s);
      }
    }
  }

  /** The inductive step of `UpperSplit` when `s` opens with a word character. */
  lemma UpperSplitWord(s: string)
    requires |s| > 0 && s[0] != ' '
    requires Split(Upper(s[1..])) == MapUpper(Split(s[1..]))
    ensures Split(Upper(s)) == MapUpper(Split(s))
  {
    var c := UpperChar(s[0]);
    var t := Split(s[1..]);
    var ut := Split(Upper(s[1..]));
    UpperHead(s);
    SplitWord(c, Upper(s[1..]));
    assert Split(s) == [[s[0]] + t[0]] + t[1..];
    MapUpperTail(t);
    UpperCons(s[0], t[0]);
    MapUpperCons([s[0]] + t[0], t[1..]);
  }

  /** A word character in front joins the first piece. */
  lemma SplitWord(c: char, rest: string)
    requires c != ' '
    ensures Split([c] + rest) == [[c] + Split(rest)[0]] + Split(rest)[1..]
  {
    assert ([c] + rest)[1..] == rest;
  }

  /** The inductive step of `UpperSplit` when `s` opens with a space. */
  lemma UpperSplitSpace(s: string)
    requires |s| > 0 && s[0] == ' '
    requires Split(Upper(s[1..])) == MapUpper(Split(s[1..]))
    ensures Split(Upper(s)) == MapUpper(Split(s))
  {
    var u := Upper(s);
    assert u[0] == ' ';
    assert u[1..] == Upper(s[1..]);
    var t := Split(s[1..]);
    assert Split(u) == [""] + Split(u[1..]);
    assert Split(s) == [""] + t;
    MapUpperCons("", t);
  }

  function MapUpper(ts: seq<string>): seq<string> {
    seq(|ts|, i requires 0 <= i < |ts| => Upper(ts[i]))
  }

  lemma UpperCons(c: char, t: string)
    ensures Upper([c] + t) == [UpperChar(c)] + Upper(t)
  {
  }

  lemma UpperHead(s: string)
    requires |s| > 0
    ensures Upper(s) == [UpperChar(s[0])] + Upper(s[1..])
  {
  }

  lemma MapUpperTail(ts: seq<string>)
    requires |ts| > 0
    ensures MapUpper(ts)[0] == Upper(ts[0]) && MapUpper(ts)[1..] == MapUpper(ts[1..])
  {
  }

  lemma MapUpperCons(a: string, ts: seq<string>)
    ensures MapUpper([a] + ts) == [Upper(a)] + MapUpper(ts)
  {
  }

  predicate HasSpace(s: string) {
    ' ' in s
  }

  /** `ts.join(' ')`: the empty array joins to the empty string. */
  function Join(ts: seq<string>): string
  {
    if |ts| == 0 then ""
    else if |ts| == 1 then ts[0]
    else ts[0] + " " + Join(ts[1..])
  }

  /**
    `s.split(' ')`: the pieces between single spaces. There is always at least
    one piece, and two adjacent spaces produce an empty piece between them.
   */
  function Split(s: string): (r: seq<string>)
    ensures |r| >= 1
    ensures forall i :: 0 <= i < |r| ==> !HasSpace(r[i])
    ensures Join(r) == s
    decreases |s|
  {
    if |s| == 0 then [""]
    else
      var t := Split(s[1..]);
      if s[0] == ' ' then
        assert Join([""] + t) == "" + " " + Join(t);
        [""] + t
      else
        var r := [[s[0]] + t[0]] + t[1..];
        assert |t| > 1 ==> Join(t) == t[0] + " " + Join(t[1..]);
        assert |t| > 1 ==> Join(r) == ([s[0]] + t[0]) + " " + Join(t[1..]);
        assert s == [s[0]] + s[1..];
        r
  }

  lemma {:induction false} SplitNoSpace(a: string)
    requires !HasSpace(a)
    ensures Split(a) == [a]
    decreases |a|
  {
    if |a| > 0 {
      assert a[0] != ' ';
      assert !HasSpace(a[1..]) by {
        forall c | c in a[1..] ensures c != ' ' {
          assert c in a;
        }
      }
      SplitNoSpace(a[1..]);
      assert a == [a[0]] + a[1..];
    }
  }

  lemma {:induction false} SplitAtSpace(a: string, b: string)
    requires !HasSpace(a)
    ensures Split(a + " " + b) == [a] + Split(b)
    decreases |a|
  {
    var s := a + " " + b;
    if |a| == 0 {
      assert s == " " + b;
      assert s[1..] == b;
    } else {
      assert a[0] != ' ';
      assert !HasSpace(a[1..]) by {
        forall c | c in a[1..] ensures c != ' ' {
          assert c in a;
        }
      }
      assert s[1..] == a[1..] + " " + b;
      SplitAtSpace(a[1..], b);
      assert a == [a[0]] + a[1..];
    }
  }

  /** Joining space-free pieces and splitting the result gives the pieces back. */
  lemma {:induction false} SplitJoin(ts: seq<string>)
    requires |ts| >= 1
    requires forall i :: 0 <= i < |ts| ==> !HasSpace(ts[i])
    ensures Split(Join(ts)) == ts
  {
    if |ts| == 1 {
      SplitNoSpace(ts[0]);
    } else {
      SplitJoin(ts[1..]);
      SplitAtSpace(ts[0], Join(ts[1..]));
      assert ts == [ts[0]] + ts[1..];
    }
  }

  /** The two pieces around the first space. */
  lemma SplitFirstSpace(s: string)
    requires HasSpace(s)
    ensures |Split(s)| >= 2
    ensures s == Split(s)[0] + " " + Join(Split(s)[1..])
  {
  }

  /** `s.startsWith(p)` */
  predicate StartsWith(s: string, p: string) {
    |p| <= |s| && s[..|p|] == p
  }

  /** `s.trimStart()`: the longest all-space prefix removed. */
  function TrimStart(s: string): (r: string)
    ensures |r| <= |s|
    ensures r == s[|s| - |r|..]
    ensures AllSpace(s[..|s| - |r|])
    ensures r == "" || !IsJsSpace(r[0])
    decreases |s|
  {
    if |s| > 0 && IsJsSpace(s[0]) then
      var r := TrimStart(s[1..]);
      assert s[..|s| - |r|] == [s[0]] + s[1..][..|s| - 1 - |r|];
      r
    else s
  }

  /** `s.trimEnd()`: the longest all-space suffix removed. */
  function TrimEnd(s: string): (r: string)
    ensures |r| <= |s|
    ensures r == s[..|r|]
    ensures AllSpace(s[|r|..])
    ensures r == "" || !IsJsSpace(r[|r| - 1])
    decreases |s|
  {
    if |s| > 0 && IsJsSpace(s[|s| - 1]) then
      var r := TrimEnd(s[..|s| - 1]);
      assert s[|r|..] == s[..|s| - 1][|r|..] + [s[|s| - 1]];
      r
    else s
  }

  /** `s.trim()`: a contiguous piece of `s` with only white space around it, and none at its ends. */
  function Trim(s: string): (r: string)
    ensures r == "" || (!IsJsSpace(r[0]) && !IsJsSpace(r[|r| - 1]))
    ensures exists i :: 0 <= i <= |s| - |r| && r == s[i..][..|r|] && AllSpace(s[..i]) && AllSpace(s[i + |r|..])
  {
    var t := TrimStart(s);
    var r := TrimEnd(t);
    var i := |s| - |t|;
    assert r == s[i..][..|r|];
    assert s[i + |r|..] == t[|r|..];
    r
  }

  /** A single space in front of a string that has no white space at its ends is all `trim` removes. */
  lemma TrimOneLeadingSpace(t: string)
    requires |t| > 0 && !IsJsSpace(t[0]) && !IsJsSpace(t[|t| - 1])
    ensures Trim(" " + t) == t
  {
    var s := " " + t;
    assert s[1..] == t;
    assert TrimStart(t) == t;
    assert TrimStart(s) == t;
    assert TrimEnd(t) == t;
  }
}
