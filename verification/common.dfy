/** Shared vocabulary: optional values, identifiers, the session the
    authentication layer resolves, JavaScript truthiness of request fields,
    and the small string operations the schema setters and the route guard
    rely on (prefix test, whitespace trim, ASCII lower-casing, and the
    JavaScript length the schemas' limits compare). */
module Common {

  /** An optional value; `None` stands for a field that is absent, `undefined` or `null`. */
  datatype Option<+T> = None | Some(value: T)

  /** A document identifier (an ObjectId rendered as a string). */
  type Id = string

  /** What the session layer hands a request handler: no session at all, or a
      session whose user may or may not carry an email. */
  datatype Session = NoSession | Session(email: Option<string>)

  /** JavaScript truthiness of an optional string: present and not empty. */
  predicate Present(o: Option<string>)
  {
    o.Some? && o.value != ""
  }

  /** `!session?.user?.email` is false: there is a session with a non-empty email. */
  predicate SignedIn(s: Session)
  {
    s.Session? && Present(s.email)
  }

  predicate StartsWith(s: string, prefix: string)
  {
    |prefix| <= |s| && s[..|prefix|] == prefix
  }

  /** The characters JavaScript's `String.prototype.trim` removes, restricted to ASCII. */
  predicate IsSpace(c: char)
  {
    c == ' ' || c == '\t' || c == '\n' || c == '\r' || c == '\U{B}' || c == '\U{C}'
  }

  predicate AllSpace(s: string)
  {
    forall i :: 0 <= i < |s| ==> IsSpace(s[i])
  }

  /** `trimStart`: the whitespace at the front of `s` removed. */
  function TrimStart(s: string): (r: string)
    ensures |r| <= |s| && r == s[|s| - |r|..]
    ensures forall k :: 0 <= k < |s| - |r| ==> IsSpace(s[k])
    ensures r != [] ==> !IsSpace(r[0])
    decreases |s|
  {
    if s != [] && IsSpace(s[0]) then
      var r := TrimStart(s[1..]);
      assert forall k :: 1 <= k < |s| ==> s[1..][k - 1] == s[k];
      r
    else s
  }

  /** `trimEnd`: the whitespace at the back of `s` removed. */
  function TrimEnd(s: string): (r: string)
    ensures |r| <= |s| && r == s[..|r|]
    ensures forall k :: |r| <= k < |s| ==> IsSpace(s[k])
    ensures r != [] ==> !IsSpace(r[|r| - 1])
    decreases |s|
  {
    if s != [] && IsSpace(s[|s| - 1]) then
      var r := TrimEnd(s[..|s| - 1]);
      assert forall k :: 0 <= k < |s| - 1 ==> s[..|s| - 1][k] == s[k];
      r
    else s
  }

  /** `s.trim()`: the infix of `s` left once the whitespace at both ends is
      removed; it neither starts nor ends with whitespace. */
  function Trim(s: string): (r: string)
    ensures exists i, j :: 0 <= i <= j <= |s| && r == s[i..j] && AllSpace(s[..i]) && AllSpace(s[j..])
    ensures r != [] ==> !IsSpace(r[0]) && !IsSpace(r[|r| - 1])
  {
    TrimShape(s);
    TrimEnd(TrimStart(s))
  }

  /** Whitespace before `a`, read pointwise. */
  lemma SpacesBefore(s: string, a: int)
    requires 0 <= a <= |s|
    ensures AllSpace(s[..a]) <==> forall k :: 0 <= k < a ==> IsSpace(s[k])
  {
    assert forall k :: 0 <= k < a ==> s[..a][k] == s[k];
  }

  /** Whitespace from `b` on, read pointwise. */
  lemma SpacesFrom(s: string, b: int)
    requires 0 <= b <= |s|
    ensures AllSpace(s[b..]) <==> forall k :: b <= k < |s| ==> IsSpace(s[k])
  {
    assert forall k :: b <= k < |s| ==> s[b..][k - b] == s[k];
  }

  /** The trim is determined by its characterisation: an infix with only
      whitespace outside it and none at its ends is the trimmed string. */
  lemma {:induction false} TrimUnique(s: string, i: int, j: int)
    requires 0 <= i <= j <= |s| && AllSpace(s[..i]) && AllSpace(s[j..])
    requires i < j ==> !IsSpace(s[i]) && !IsSpace(s[j - 1])
    ensures Trim(s) == s[i..j]
  {
    var a, b := TrimBounds(s);
    SpacesBefore(s, i);
    SpacesFrom(s, j);
  }

  /** `!s.trim()` in JavaScript: the trimmed string is empty exactly when
      every character of `s` is whitespace. */
  lemma {:induction false} TrimEmptyIffAllSpace(s: string)
    ensures Trim(s) == "" <==> AllSpace(s)
  {
    var a, b := TrimBounds(s);
    if a < b {
      assert s[a] == s[a..b][0];
    }
  }

  function LowerChar(c: char): (r: char)
    ensures 'A' <= c <= 'Z' ==> 'a' <= r <= 'z'
    ensures !('A' <= c <= 'Z') ==> r == c
  {
    if 'A' <= c <= 'Z' then (c as int - 'A' as int + 'a' as int) as char else c
  }

  /** `s.toLowerCase()`, restricted to the ASCII letters. */
  function Lower(s: string): (r: string)
    ensures |r| == |s|
    ensures forall i :: 0 <= i < |s| ==> r[i] == LowerChar(s[i])
  {
    seq(|s|, i requires 0 <= i < |s| => LowerChar(s[i]))
  }

  /** The bounds of the trim, as its characterisation gives them. */
  lemma TrimBounds(s: string) returns (a: int, b: int)
    ensures 0 <= a <= b <= |s| && Trim(s) == s[a..b]
    ensures forall k :: 0 <= k < a ==> IsSpace(s[k])
    ensures forall k :: b <= k < |s| ==> IsSpace(s[k])
    ensures a < b ==> !IsSpace(s[a]) && !IsSpace(s[b - 1])
  {
    a, b := TrimParts(s);
  }

  /** Where the two trimming passes cut `s`, stated pointwise. */
  lemma {:induction false} TrimParts(s: string) returns (a: int, b: int)
    ensures 0 <= a <= b <= |s| && TrimEnd(TrimStart(s)) == s[a..b]
    ensures forall k :: 0 <= k < a ==> IsSpace(s[k])
    ensures forall k :: b <= k < |s| ==> IsSpace(s[k])
    ensures a < b ==> !IsSpace(s[a]) && !IsSpace(s[b - 1])
  {
    var t := TrimStart(s);
    var a0 := TrimStartCut(s);
    var e := TrimEndCut(t);
    a, b := CutsCompose(s, t, TrimEnd(t), a0, e);
  }

  /** A front cut at `a0` followed by a back cut at `e` is the infix
      `s[a0..a0 + e]`, with whitespace outside it and none at its ends. */
  lemma CutsCompose(s: string, t: string, r: string, a0: int, e: int) returns (a: int, b: int)
    requires 0 <= a0 <= |s| && t == s[a0..] && 0 <= e <= |t| && r == t[..e]
    requires forall k :: 0 <= k < a0 ==> IsSpace(s[k])
    requires a0 < |s| ==> !IsSpace(s[a0])
    requires forall k :: e <= k < |t| ==> IsSpace(t[k])
    requires 0 < e ==> !IsSpace(t[e - 1])
    ensures 0 <= a <= b <= |s| && r == s[a..b]
    ensures forall k :: 0 <= k < a ==> IsSpace(s[k])
    ensures forall k :: b <= k < |s| ==> IsSpace(s[k])
    ensures a < b ==> !IsSpace(s[a]) && !IsSpace(s[b - 1])
  {
    a, b := a0, a0 + e;
    forall k | a + e <= k < |s|
      ensures IsSpace(s[k])
    {
      assert s[k] == t[k - a];
    }
    if 0 < e {
      assert s[b - 1] == t[e - 1];
    }
  }

  /** The first pass cuts a run of whitespace off the front of `s`. */
  lemma TrimStartCut(s: string) returns (a: int)
    ensures 0 <= a <= |s| && TrimStart(s) == s[a..]
    ensures forall k :: 0 <= k < a ==> IsSpace(s[k])
    ensures a < |s| ==> !IsSpace(s[a])
  {
    a := |s| - |TrimStart(s)|;
    if a < |s| {
      assert TrimStart(s)[0] == s[a];
    }
  }

  /** The second pass cuts a run of whitespace off the back of `t`. */
  lemma TrimEndCut(t: string) returns (e: int)
    ensures 0 <= e <= |t| && TrimEnd(t) == t[..e]
    ensures forall k :: e <= k < |t| ==> IsSpace(t[k])
    ensures 0 < e ==> !IsSpace(t[e - 1])
  {
    e := |TrimEnd(t)|;
    if 0 < e {
      assert TrimEnd(t)[e - 1] == t[e - 1];
    }
  }

  /** The trim as an infix of `s` with whitespace around it. */
  lemma TrimShape(s: string)
    ensures exists i, j :: 0 <= i <= j <= |s| && TrimEnd(TrimStart(s)) == s[i..j] && AllSpace(s[..i]) && AllSpace(s[j..])
    ensures TrimEnd(TrimStart(s)) != [] ==>
      !IsSpace(TrimEnd(TrimStart(s))[0]) && !IsSpace(TrimEnd(TrimStart(s))[|TrimEnd(TrimStart(s))| - 1])
  {
    var a, b := TrimParts(s);
    SpacesBefore(s, a);
    SpacesFrom(s, b);
  }

  /** Lower-casing keeps blanks blank and everything else not blank. */
  lemma LowerKeepsSpaces(s: string)
    ensures forall k :: 0 <= k < |s| ==> (IsSpace(Lower(s)[k]) <==> IsSpace(s[k]))
  {
  }

  /** Lower-casing commutes with taking an infix. */
  lemma LowerSlice(s: string, a: int, b: int)
    requires 0 <= a <= b <= |s|
    ensures Lower(s)[a..b] == Lower(s[a..b])
  {
    var l := Lower(s);
    var v := s[a..b];
    forall k | 0 <= k < b - a
      ensures l[a..b][k] == LowerChar(v[k])
    {
      assert l[a..b][k] == l[a + k] && v[k] == s[a + k];
    }
    LowerPointwise(l[a..b], v);
  }

  /** A string that is `v` lower-cased character by character is `Lower(v)`. */
  lemma LowerPointwise(u: string, v: string)
    requires |u| == |v| && forall k :: 0 <= k < |u| ==> u[k] == LowerChar(v[k])
    ensures u == Lower(v)
  {
    var w := Lower(v);
    assert forall k :: 0 <= k < |u| ==> u[k] == w[k];
  }

  /** Lower-casing commutes with the trim, and lower-casing twice is
      lower-casing once. */
  lemma {:induction false} TrimLower(s: string)
    ensures Trim(Lower(s)) == Lower(Trim(s))
    ensures Lower(Lower(s)) == Lower(s)
  {
    var a, b := TrimBounds(s);
    var l := Lower(s);
    LowerKeepsSpaces(s);
    SpacesBefore(l, a);
    SpacesFrom(l, b);
    TrimUnique(l, a, b);
    LowerSlice(s, a, b);
  }

  /** Blanks added at either end do not change the trim. */
  lemma {:induction false} TrimPadded(p: string, s: string, q: string)
    requires AllSpace(p) && AllSpace(q)
    ensures Trim(p + s + q) == Trim(s)
  {
    var a, b := TrimBounds(s);
    TrimOfPadded(p, s, q, a, b);
  }

  /** The trim of a padded string is the infix the trim of `s` picks, moved
      past the left padding. */
  lemma {:induction false} TrimOfPadded(p: string, s: string, q: string, a: int, b: int)
    requires AllSpace(p) && AllSpace(q) && 0 <= a <= b <= |s|
    requires forall k :: 0 <= k < a ==> IsSpace(s[k])
    requires forall k :: b <= k < |s| ==> IsSpace(s[k])
    requires a < b ==> !IsSpace(s[a]) && !IsSpace(s[b - 1])
    ensures Trim(p + s + q) == s[a..b]
  {
    PaddedTrimAt(p, s, q, p + s + q, a, b);
  }

  /** `TrimOfPadded` for a `w` that names the padded string. */
  lemma PaddedTrimAt(p: string, s: string, q: string, w: string, a: int, b: int)
    requires w == p + s + q
    requires AllSpace(p) && AllSpace(q) && 0 <= a <= b <= |s|
    requires forall k :: 0 <= k < a ==> IsSpace(s[k])
    requires forall k :: b <= k < |s| ==> IsSpace(s[k])
    requires a < b ==> !IsSpace(s[a]) && !IsSpace(s[b - 1])
    ensures Trim(w) == s[a..b]
  {
    var n := |p|;
    assert n + b <= |w|;
    assert forall k :: 0 <= k < n + a ==> IsSpace(w[k]) by { PaddedSpaces(p, s, q, a, b); }
    assert forall k :: n + b <= k < |w| ==> IsSpace(w[k]) by { PaddedSpaces(p, s, q, a, b); }
    assert a < b ==> !IsSpace(w[n + a]) && !IsSpace(w[n + b - 1]) by { PaddedSpaces(p, s, q, a, b); }
    TrimAt(w, n + a, n + b);
    PaddedInfix(p, s, q, a, b);
  }

  /** `TrimUnique` with its blank runs stated pointwise. */
  lemma TrimAt(w: string, i: int, j: int)
    requires 0 <= i <= j <= |w|
    requires forall k :: 0 <= k < i ==> IsSpace(w[k])
    requires forall k :: j <= k < |w| ==> IsSpace(w[k])
    requires i < j ==> !IsSpace(w[i]) && !IsSpace(w[j - 1])
    ensures Trim(w) == w[i..j]
  {
    SpacesBefore(w, i);
    SpacesFrom(w, j);
    TrimUnique(w, i, j);
  }

  /** Padding with blanks extends the blank runs at both ends of `s`. */
  lemma PaddedSpaces(p: string, s: string, q: string, a: int, b: int)
    requires AllSpace(p) && AllSpace(q) && 0 <= a <= b <= |s|
    requires forall k :: 0 <= k < a ==> IsSpace(s[k])
    requires forall k :: b <= k < |s| ==> IsSpace(s[k])
    ensures forall k :: 0 <= k < |p| + a ==> IsSpace((p + s + q)[k])
    ensures forall k :: |p| + b <= k < |p| + |s| + |q| ==> IsSpace((p + s + q)[k])
    ensures forall k :: 0 <= k < |s| ==> (p + s + q)[|p| + k] == s[k]
  {
  }

  lemma PaddedInfix(p: string, s: string, q: string, a: int, b: int)
    requires 0 <= a <= b <= |s|
    ensures (p + s + q)[|p| + a..|p| + b] == s[a..b]
  {
    assert forall k :: a <= k < b ==> (p + s + q)[|p| + k] == s[k];
  }

  /** Trimming a trimmed string changes nothing. */
  lemma {:induction false} TrimIdempotent(s: string)
    ensures Trim(Trim(s)) == Trim(s)
  {
    var r := Trim(s);
    assert r[..0] == [] && r[|r|..] == [];
    TrimUnique(r, 0, |r|);
    assert r[0..|r|] == r;
  }

  // ------------------------------------------------------- JavaScript length

  /** The UTF-16 code units of one character: two outside the Basic
      Multilingual Plane, one inside it. */
  function CodeUnits(c: char): (n: nat)
    ensures 1 <= n <= 2
    ensures n == 2 <==> c as int >= 0x1_0000
  {
    if c as int >= 0x1_0000 then 2 else 1
  }

  /** JavaScript's `s.length`, which counts UTF-16 code units and not
      characters; the length limits of the schemas compare this number. */
  function JsLength(s: string): (n: nat)
    ensures |s| <= n <= 2 * |s|
    decreases |s|
  {
    if s == [] then 0 else CodeUnits(s[0]) + JsLength(s[1..])
  }

  /** A string of `n` copies of one character has `n` times its code units. */
  lemma {:induction false} JsLengthRepeat(c: char, n: nat)
    ensures JsLength(seq(n, _ => c)) == n * CodeUnits(c)
    decreases n
  {
    if n > 0 {
      assert seq(n, _ => c)[1..] == seq(n - 1, _ => c);
      JsLengthRepeat(c, n - 1);
    }
  }

  /** Inside the Basic Multilingual Plane the JavaScript length is the
      number of characters. */
  lemma {:induction false} JsLengthOfBmp(s: string)
    requires forall i :: 0 <= i < |s| ==> s[i] as int < 0x1_0000
    ensures JsLength(s) == |s|
    decreases |s|
  {
    if s != [] {
      assert forall i :: 0 <= i < |s[1..]| ==> s[1..][i] == s[i + 1];
      JsLengthOfBmp(s[1..]);
    }
  }
}
