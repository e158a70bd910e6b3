/** String handling the controllers and the schema setters rely on: JavaScript's `trim`,
    Mongoose's `lowercase`/`trim` setters, the case-insensitive feed search and the
    e-mail pattern of `updateAccountDetails`. */
module Text {

  /** JavaScript white space and line terminators: what `\s` matches and what
      `String.prototype.trim` strips. */
  predicate IsSpace(c: char)
  {
    c == ' ' || c == '\t' || c == '\n' || c == '\r' || c == '\U{B}' || c == '\U{C}'
    || c == '\U{A0}' || c == '\U{1680}' || ('\U{2000}' <= c <= '\U{200A}')
    || c == '\U{2028}' || c == '\U{2029}' || c == '\U{202F}' || c == '\U{205F}'
    || c == '\U{3000}' || c == '\U{FEFF}'
  }

  /** Every character is white space (the empty string included). */
  predicate IsBlank(s: string)
  {
    forall i :: 0 <= i < |s| ==> IsSpace(s[i])
  }

  function TrimStart(s: string): (r: string)
    ensures |r| <= |s| && r == s[|s| - |r|..]
    ensures r == [] || !IsSpace(r[0])
    ensures forall i :: 0 <= i < |s| - |r| ==> IsSpace(s[i])
  {
    if s != [] && IsSpace(s[0]) then TrimStart(s[1..]) else s
  }

  function TrimEnd(s: string): (r: string)
    ensures |r| <= |s| && r == s[..|r|]
    ensures r == [] || !IsSpace(r[|r| - 1])
    ensures forall i :: |r| <= i < |s| ==> IsSpace(s[i])
  {
    if s != [] && IsSpace(s[|s| - 1]) then TrimEnd(s[..|s| - 1]) else s
  }

  /** `String.prototype.trim`: `s` with its leading and trailing white space removed. */
  function Trim(s: string): (r: string)
  {
    TrimEnd(TrimStart(s))
  }

  /** `r` is the run of `s` starting at `lo`, and everything around it is white space. */
  ghost predicate SpaceAround(s: string, r: string, lo: int)
  {
    0 <= lo <= |s| - |r| && s[lo..lo + |r|] == r
    && (forall i :: 0 <= i < lo ==> IsSpace(s[i]))
    && (forall i :: lo + |r| <= i < |s| ==> IsSpace(s[i]))
  }

  /** What `trim` keeps is a run of `s` that neither starts nor ends with white space,
      and everything it drops is white space. */
  lemma TrimIsInnerRun(s: string)
    ensures var r := Trim(s);
      && (r == [] || (!IsSpace(r[0]) && !IsSpace(r[|r| - 1])))
      && exists lo :: SpaceAround(s, r, lo)
  {
    var t := TrimStart(s);
    var r := TrimEnd(t);
    var lo := |s| - |t|;
    assert s[lo..lo + |r|] == r;
    assert forall i :: 0 <= i < lo ==> IsSpace(s[i]);
    forall i | lo + |r| <= i < |s| ensures IsSpace(s[i]) {
      assert s[i] == t[i - lo];
    }
    assert SpaceAround(s, r, lo);
  }

  /** `field.trim() === ""` holds exactly for blank fields. */
  lemma {:induction false} TrimEmptyIffBlank(s: string)
    ensures Trim(s) == "" <==> IsBlank(s)
  {
    var t := TrimStart(s);
    if t != [] {
      assert !IsSpace(t[0]) && t[0] == s[|s| - |t|];
      assert TrimEnd(t) != [];
    }
  }

  /** ASCII lower-casing of one character. */
  function LowerChar(c: char): (d: char)
  {
    if 'A' <= c <= 'Z' then (c as int + 32) as char else c
  }

  /** `toLowerCase`, restricted to ASCII letters. */
  function ToLower(s: string): (r: string)
    ensures |r| == |s|
    ensures forall i :: 0 <= i < |s| ==> r[i] == LowerChar(s[i])
  {
    seq(|s|, i requires 0 <= i < |s| => LowerChar(s[i]))
  }

  /** The value Mongoose stores for a path declared `lowercase: true, trim: true`, and the
      value it queries by when such a path appears in a filter. */
  function Normalize(s: string): (r: string)
  {
    ToLower(Trim(s))
  }

  lemma LowerCharKeepsSpace(c: char)
    ensures IsSpace(LowerChar(c)) <==> IsSpace(c)
  {
  }

  lemma TrimOfTrimmed(s: string)
    requires s == [] || (!IsSpace(s[0]) && !IsSpace(s[|s| - 1]))
    ensures Trim(s) == s
  {
  }

  /** Normalising a stored value leaves it as it is: a stored username or e-mail is found
      again by a filter on itself. */
  lemma NormalizeIdempotent(s: string)
    ensures Normalize(Normalize(s)) == Normalize(s)
  {
    TrimIsInnerRun(s);
    var t := Trim(s);
    var l := ToLower(t);
    LowerKeepsEnds(t);
    TrimOfTrimmed(l);
    LowerIdempotent(t);
  }

  /** Neither starts nor ends with white space: what `trim` leaves. */
  predicate IsTrimmed(s: string)
  {
    s == [] || (!IsSpace(s[0]) && !IsSpace(s[|s| - 1]))
  }

  /** No ASCII capital letter. */
  predicate IsLower(s: string)
  {
    forall i :: 0 <= i < |s| ==> LowerChar(s[i]) == s[i]
  }

  /** The form the `lowercase` and `trim` setters leave a value in. */
  predicate IsNormalized(s: string)
  {
    IsTrimmed(s) && IsLower(s)
  }

  lemma TrimIsTrimmed(s: string)
    ensures IsTrimmed(Trim(s))
  {
    TrimIsInnerRun(s);
  }

  /** Normalised values are exactly the values `Normalize` returns. */
  lemma NormalizedIffFixed(s: string)
    ensures IsNormalized(Normalize(s))
    ensures IsNormalized(s) <==> Normalize(s) == s
  {
    TrimIsInnerRun(s);
    LowerKeepsEnds(Trim(s));
    LowerIdempotent(Trim(s));
    if IsNormalized(s) {
      TrimOfTrimmed(s);
    }
  }

  lemma LowerKeepsEnds(t: string)
    requires t == [] || (!IsSpace(t[0]) && !IsSpace(t[|t| - 1]))
    ensures var l := ToLower(t); l == [] || (!IsSpace(l[0]) && !IsSpace(l[|l| - 1]))
  {
    if t != [] {
      LowerCharKeepsSpace(t[0]);
      LowerCharKeepsSpace(t[|t| - 1]);
    }
  }

  lemma LowerIdempotent(t: string)
    ensures ToLower(ToLower(t)) == ToLower(t)
  {
    var l := ToLower(t);
    assert forall i :: 0 <= i < |l| ==> LowerChar(l[i]) == l[i];
  }

  /** `needle` occurs in `hay` at position `i`. */
  ghost predicate OccursAt(hay: string, needle: string, i: int)
  {
    0 <= i && i + |needle| <= |hay| && hay[i..i + |needle|] == needle
  }

  /** Substring search, scanning `hay` from the left. */
  predicate Contains(hay: string, needle: string)
    decreases |hay|
  {
    (|needle| <= |hay| && hay[..|needle|] == needle) || (hay != [] && Contains(hay[1..], needle))
  }

  lemma {:induction false} ContainsIffOccurs(hay: string, needle: string)
    ensures Contains(hay, needle) <==> exists i :: OccursAt(hay, needle, i)
    decreases |hay|
  {
    if |needle| <= |hay| && hay[..|needle|] == needle {
      assert OccursAt(hay, needle, 0);
    } else if hay == [] {
    } else {
      ContainsIffOccurs(hay[1..], needle);
      if Contains(hay[1..], needle) {
        var i :| OccursAt(hay[1..], needle, i);
        assert hay[1..][i..i + |needle|] == hay[i + 1..i + 1 + |needle|];
        assert OccursAt(hay, needle, i + 1);
      }
      if exists i :: OccursAt(hay, needle, i) {
        var i :| OccursAt(hay, needle, i);
        assert i != 0;
        assert hay[1..][i - 1..i - 1 + |needle|] == hay[i..i + |needle|];
        assert OccursAt(hay[1..], needle, i - 1);
      }
    }
  }

  /** `{$regex: search, $options: "i"}` with `search` taken literally. */
  predicate MatchesIgnoringCase(field: string, search: string)
  {
    Contains(ToLower(field), ToLower(search))
  }

  /** The empty pattern matches every field. */
  lemma EmptySearchMatches(field: string)
    ensures MatchesIgnoringCase(field, "")
  {
    assert ToLower("") == "";
  }

  /** A character `[^\s@]` accepts. */
  predicate IsPlain(c: char)
  {
    !IsSpace(c) && c != '@'
  }

  /** `/^[^\s@]+@[^\s@]+\.[^\s@]+$/`: one `@` with plain characters before it, and after it
      plain characters with a `.` that is neither first nor last. */
  ghost predicate EmailPattern(s: string)
  {
    exists at, dot :: 0 < at && at + 1 < dot && dot + 1 < |s| && s[at] == '@' && s[dot] == '.'
      && forall k :: 0 <= k < |s| && k != at ==> IsPlain(s[k])
  }

  /** Position of the first `c` in `s`, or `|s|` when there is none. */
  function IndexOf(s: string, c: char): (r: nat)
    ensures r <= |s|
    ensures r < |s| ==> s[r] == c
    ensures forall k :: 0 <= k < r ==> s[k] != c
  {
    if s == [] then 0 else if s[0] == c then 0 else 1 + IndexOf(s[1..], c)
  }

  predicate AllPlain(s: string)
  {
    forall k :: 0 <= k < |s| ==> IsPlain(s[k])
  }

  /** The part after `@`: plain characters with a `.` strictly inside. */
  predicate IsEmailDomain(d: string)
  {
    |d| >= 3 && AllPlain(d) && IndexOf(d[1..|d| - 1], '.') < |d| - 2
  }

  /** The e-mail check as the regex engine runs it: split at the first `@`. */
  predicate IsValidEmail(s: string)
  {
    var at := IndexOf(s, '@');
    0 < at < |s| && AllPlain(s[..at]) && IsEmailDomain(s[at + 1..])
  }

  lemma EmailCheckMatchesPattern(s: string)
    ensures IsValidEmail(s) <==> EmailPattern(s)
  {
    var at := IndexOf(s, '@');
    if IsValidEmail(s) {
      var d := s[at + 1..];
      var k := IndexOf(d[1..|d| - 1], '.');
      var dot := at + 2 + k;
      assert s[dot] == d[k + 1] == '.';
      forall j | 0 <= j < |s| && j != at ensures IsPlain(s[j]) {
        if j < at {
          assert s[j] == s[..at][j];
        } else {
          assert s[j] == d[j - at - 1];
        }
      }
      assert EmailPattern(s);
    }
    if EmailPattern(s) {
      var a, dot :| 0 < a && a + 1 < dot && dot + 1 < |s| && s[a] == '@' && s[dot] == '.'
        && forall k :: 0 <= k < |s| && k != a ==> IsPlain(s[k]);
      assert at == a;
      var d := s[at + 1..];
      assert d[1..|d| - 1][dot - at - 2] == '.';
      assert IsEmailDomain(d);
    }
  }
}
