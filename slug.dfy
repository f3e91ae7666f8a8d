/** `slugify` (assets/js/toc.js): heading text to an identifier, in the
    order the script applies the steps: trim, lowercase, drop every character
    outside `[a-z0-9\s-]`, turn each whitespace run into `-`, collapse each
    hyphen run to one `-`. Lowercasing is modelled on ASCII letters only. */
module Slug {

  /** The ECMAScript WhiteSpace and LineTerminator code points: what the
      regular-expression class `\s` matches and what `trim` removes. */
  predicate IsSpace(c: char) {
    var n := c as int;
    n == 0x09 || n == 0x0A || n == 0x0B || n == 0x0C || n == 0x0D || n == 0x20
    || n == 0xA0 || n == 0x1680 || (0x2000 <= n <= 0x200A) || n == 0x2028
    || n == 0x2029 || n == 0x202F || n == 0x205F || n == 0x3000 || n == 0xFEFF
  }

  predicate IsLowerAlnum(c: char) {
    'a' <= c <= 'z' || '0' <= c <= '9'
  }

  /** The class `[a-z0-9\s-]`: the characters the first `replace` keeps. */
  predicate IsKept(c: char) {
    IsLowerAlnum(c) || IsSpace(c) || c == '-'
  }

  predicate IsSlugChar(c: char) {
    IsLowerAlnum(c) || c == '-'
  }

  predicate NoDoubleHyphen(s: string) {
    forall k :: 0 <= k < |s| - 1 ==> !(s[k] == '-' && s[k + 1] == '-')
  }

  /** What `slugify` can return: lowercase ASCII letters, digits and
      hyphens, never two hyphens in a row. */
  predicate IsSlug(s: string) {
    (forall k :: 0 <= k < |s| ==> IsSlugChar(s[k])) && NoDoubleHyphen(s)
  }

  function LowerChar(c: char): char {
    if 'A' <= c <= 'Z' then ((c as int) + 32) as char else c
  }

  /** `toLowerCase` on ASCII: each capital becomes its own lowercase letter,
      and every character that was not a capital is kept where it was. */
  function ToLower(s: string): (r: string)
    ensures |r| == |s|
    ensures forall k :: 0 <= k < |s| ==> !('A' <= r[k] <= 'Z') && (r[k] == s[k] || 'A' <= s[k] <= 'Z')
    ensures forall k :: 0 <= k < |s| && 'A' <= s[k] <= 'Z' ==>
              'a' <= r[k] <= 'z' && r[k] as int - 'a' as int == s[k] as int - 'A' as int
  {
    seq(|s|, k requires 0 <= k < |s| => LowerChar(s[k]))
  }

  /** Drops the leading whitespace. */
  function TrimStart(s: string): (r: string)
    ensures |r| <= |s| && r == s[|s| - |r|..]
    ensures forall k :: 0 <= k < |s| - |r| ==> IsSpace(s[k])
    ensures r == [] || !IsSpace(r[0])
  {
    if s != [] && IsSpace(s[0]) then TrimStart(s[1..]) else s
  }

  /** Drops the trailing whitespace. */
  function TrimEnd(s: string): (r: string)
    ensures |r| <= |s| && r == s[..|r|]
    ensures forall k :: |r| <= k < |s| ==> IsSpace(s[k])
    ensures r == [] || !IsSpace(r[|r| - 1])
  {
    if s != [] && IsSpace(s[|s| - 1]) then TrimEnd(s[..|s| - 1]) else s
  }

  /** `trim`: neither end of the result is whitespace, and the result is
      empty exactly when the text is all whitespace. */
  function Trim(s: string): (r: string)
    ensures r == [] || (!IsSpace(r[0]) && !IsSpace(r[|r| - 1]))
    ensures r == [] <==> forall k :: 0 <= k < |s| ==> IsSpace(s[k])
  {
    TrimEnd(TrimStart(s))
  }

  /** `replace(/[^a-z0-9\s-]/g, '')` */
  function KeepAllowed(s: string): (r: string)
    ensures forall k :: 0 <= k < |r| ==> IsKept(r[k])
  {
    if s == [] then []
    else if IsKept(s[0]) then [s[0]] + KeepAllowed(s[1..])
    else KeepAllowed(s[1..])
  }

  /** `replace(/\s+/g, '-')` */
  function HyphenateSpaces(s: string): (r: string)
    ensures forall k :: 0 <= k < |r| ==> r[k] == '-' || (!IsSpace(r[k]) && r[k] in s)
    ensures r == [] <==> s == []
    decreases |s|
  {
    if s == [] then []
    else if IsSpace(s[0]) then ['-'] + HyphenateSpaces(TrimStart(s[1..]))
    else [s[0]] + HyphenateSpaces(s[1..])
  }

  /** Drops the leading hyphens. */
  function SkipHyphens(s: string): (r: string)
    ensures |r| <= |s| && r == s[|s| - |r|..]
    ensures forall k :: 0 <= k < |s| - |r| ==> s[k] == '-'
    ensures r == [] || r[0] != '-'
  {
    if s != [] && s[0] == '-' then SkipHyphens(s[1..]) else s
  }

  /** `replace(/-+/g, '-')` */
  function CollapseHyphens(s: string): (r: string)
    ensures NoDoubleHyphen(r)
    ensures forall k :: 0 <= k < |r| ==> r[k] in s
    ensures r == [] <==> s == []
    ensures s != [] ==> r[0] == s[0]
    decreases |s|
  {
    if s == [] then []
    else if s[0] == '-' then ['-'] + CollapseHyphens(SkipHyphens(s[1..]))
    else [s[0]] + CollapseHyphens(s[1..])
  }

  /** `slugify(text)`. Whatever the text, the result is a slug. */
  function Slugify(text: string): (r: string)
    ensures IsSlug(r)
  {
    CollapseHyphens(HyphenateSpaces(KeepAllowed(ToLower(Trim(text)))))
  }

  // `replace(/\s+/g, '-')` run by run: each maximal whitespace run becomes
  // exactly one hyphen, and every other character is kept, in order.

  /** Dropping the first element of a concatenation. */
  lemma TailOfAppend<T>(a: seq<T>, b: seq<T>)
    requires a != []
    ensures (a + b)[0] == a[0] && (a + b)[1..] == a[1..] + b
  {
  }

  lemma AppendAssoc<T>(a: seq<T>, b: seq<T>, c: seq<T>)
    ensures a + b + c == a + (b + c)
  {
  }

  /** `trim` at the front consumes a whole whitespace run. */
  lemma {:induction false} TrimStartSpaceRun(w: string, b: string)
    requires forall k :: 0 <= k < |w| ==> IsSpace(w[k])
    requires b == [] || !IsSpace(b[0])
    ensures TrimStart(w + b) == b
    decreases |w|
  {
    if w == [] {
      assert w + b == b;
    } else {
      TailOfAppend(w, b);
      TrimStartSpaceRun(w[1..], b);
    }
  }

  /** Text without whitespace passes through unchanged, whatever follows. */
  lemma {:induction false} HyphenateKeepsSpaceless(a: string, b: string)
    requires forall k :: 0 <= k < |a| ==> !IsSpace(a[k])
    ensures HyphenateSpaces(a + b) == a + HyphenateSpaces(b)
    decreases |a|
  {
    if a == [] {
      assert a + b == b;
    } else {
      TailOfAppend(a, b);
      HyphenateKeepsSpaceless(a[1..], b);
      assert a == [a[0]] + a[1..];
    }
  }

  /** A whitespace run at the front becomes one hyphen. */
  lemma HyphenateLeadingRun(w: string, b: string)
    requires w != [] && forall k :: 0 <= k < |w| ==> IsSpace(w[k])
    requires b == [] || !IsSpace(b[0])
    ensures HyphenateSpaces(w + b) == "-" + HyphenateSpaces(b)
  {
    var t := w + b;
    TailOfAppend(w, b);
    calc {
      HyphenateSpaces(t);
    ==
      ['-'] + HyphenateSpaces(TrimStart(t[1..]));
    == { TailOfAppend(w, b); TrimStartSpaceRun(w[1..], b); }
      ['-'] + HyphenateSpaces(b);
    }
  }

  /** The whitespace run `w` between the whitespace-free `a` and the rest
      `b` becomes one hyphen; `a` is kept as it is. */
  lemma HyphenateSpaceRun(a: string, w: string, b: string)
    requires forall k :: 0 <= k < |a| ==> !IsSpace(a[k])
    requires w != [] && forall k :: 0 <= k < |w| ==> IsSpace(w[k])
    requires b == [] || !IsSpace(b[0])
    ensures HyphenateSpaces(a + w + b) == a + "-" + HyphenateSpaces(b)
  {
    calc {
      HyphenateSpaces(a + w + b);
    == { AppendAssoc(a, w, b); }
      HyphenateSpaces(a + (w + b));
    == { HyphenateKeepsSpaceless(a, w + b); }
      a + HyphenateSpaces(w + b);
    == { HyphenateLeadingRun(w, b); }
      a + ("-" + HyphenateSpaces(b));
    == { AppendAssoc(a, "-", HyphenateSpaces(b)); }
      a + "-" + HyphenateSpaces(b);
    }
  }

  // Idempotence: a slug passes through every step unchanged.

  lemma {:induction false} KeepAllowedKeepsKept(s: string)
    requires forall k :: 0 <= k < |s| ==> IsKept(s[k])
    ensures KeepAllowed(s) == s
  {
    if s != [] {
      KeepAllowedKeepsKept(s[1..]);
    }
  }

  lemma {:induction false} HyphenateSpacelessIsIdentity(s: string)
    requires forall k :: 0 <= k < |s| ==> !IsSpace(s[k])
    ensures HyphenateSpaces(s) == s
  {
    if s != [] {
      HyphenateSpacelessIsIdentity(s[1..]);
    }
  }

  lemma {:induction false} CollapseSingleHyphensIsIdentity(s: string)
    requires NoDoubleHyphen(s)
    ensures CollapseHyphens(s) == s
    decreases |s|
  {
    if s != [] {
      if s[0] == '-' {
        assert SkipHyphens(s[1..]) == s[1..] by {
          assert |s| > 1 ==> s[1] != '-';
        }
      }
      CollapseSingleHyphensIsIdentity(s[1..]);
    }
  }

  /** `trim` leaves text that starts and ends with non-whitespace alone. */
  lemma TrimKeepsUnpadded(s: string)
    requires s != [] ==> !IsSpace(s[0]) && !IsSpace(s[|s| - 1])
    ensures Trim(s) == s
  {
  }

  lemma ToLowerKeepsLower(s: string)
    requires forall k :: 0 <= k < |s| ==> !('A' <= s[k] <= 'Z')
    ensures ToLower(s) == s
  {
  }

  lemma SlugCharIsPlain(c: char)
    requires IsSlugChar(c)
    ensures !IsSpace(c) && !('A' <= c <= 'Z')
  {
  }

  /** Every slug is a fixpoint of `slugify`. */
  lemma SlugIsFixpoint(s: string)
    requires IsSlug(s)
    ensures Slugify(s) == s
  {
    assert Trim(s) == s && ToLower(s) == s && HyphenateSpaces(s) == s by {
      forall k | 0 <= k < |s|
        ensures !IsSpace(s[k]) && !('A' <= s[k] <= 'Z')
      {
        SlugCharIsPlain(s[k]);
      }
      TrimKeepsUnpadded(s);
      ToLowerKeepsLower(s);
      HyphenateSpacelessIsIdentity(s);
    }
    assert KeepAllowed(s) == s by {
      KeepAllowedKeepsKept(s);
    }
    assert CollapseHyphens(s) == s by {
      CollapseSingleHyphensIsIdentity(s);
    }
  }

  lemma SlugifyIdempotent(text: string)
    ensures Slugify(Slugify(text)) == Slugify(text)
  {
    SlugIsFixpoint(Slugify(text));
  }

  // The letters and digits of the text survive, in order: the steps only
  // remove or replace other characters.

  /** The lowercase ASCII letters and the digits of `s`, in order. */
  function Alnums(s: string): string {
    if s == [] then []
    else if IsLowerAlnum(s[0]) then [s[0]] + Alnums(s[1..])
    else Alnums(s[1..])
  }

  lemma {:induction false} AlnumsAppend(a: string, b: string)
    ensures Alnums(a + b) == Alnums(a) + Alnums(b)
  {
    if a != [] {
      assert (a + b)[0] == a[0];
      assert (a + b)[1..] == a[1..] + b;
      AlnumsAppend(a[1..], b);
    } else {
      assert a + b == b;
    }
  }

  lemma {:induction false} AlnumsOfNone(s: string)
    requires forall k :: 0 <= k < |s| ==> !IsLowerAlnum(s[k])
    ensures Alnums(s) == []
  {
    if s != [] {
      AlnumsOfNone(s[1..]);
    }
  }

  /** Dropping a run of non-alphanumeric characters from the front of `s`
      leaves its letters and digits as they were. */
  lemma AlnumsDropFront(s: string, r: string)
    requires |r| <= |s| && r == s[|s| - |r|..]
    requires forall k :: 0 <= k < |s| - |r| ==> !IsLowerAlnum(s[k])
    ensures Alnums(r) == Alnums(s)
  {
    var m := |s| - |r|;
    assert s == s[..m] + r;
    AlnumsAppend(s[..m], r);
    AlnumsOfNone(s[..m]);
  }

  /** Dropping a run of non-alphanumeric characters from the back of `s`
      leaves its letters and digits as they were. */
  lemma AlnumsDropBack(s: string, r: string)
    requires |r| <= |s| && r == s[..|r|]
    requires forall k :: |r| <= k < |s| ==> !IsLowerAlnum(s[k])
    ensures Alnums(r) == Alnums(s)
  {
    assert s == r + s[|r|..];
    AlnumsAppend(r, s[|r|..]);
    AlnumsOfNone(s[|r|..]);
  }

  lemma SpaceIsNotAlnum(c: char)
    requires IsSpace(c)
    ensures !IsLowerAlnum(LowerChar(c))
  {
  }

  /** Lowercasing works character by character: it commutes with slicing. */
  lemma ToLowerSlices(s: string, m: nat)
    requires m <= |s|
    ensures ToLower(s[m..]) == ToLower(s)[m..]
    ensures ToLower(s[..m]) == ToLower(s)[..m]
  {
  }

  lemma AlnumsTrimStart(s: string)
    ensures Alnums(ToLower(TrimStart(s))) == Alnums(ToLower(s))
  {
    var ls, lu := ToLower(s), ToLower(TrimStart(s));
    var m := |s| - |TrimStart(s)|;
    forall k | 0 <= k < m
      ensures !IsLowerAlnum(ls[k])
    {
      SpaceIsNotAlnum(s[k]);
    }
    ToLowerSlices(s, m);
    AlnumsDropFront(ls, lu);
  }

  lemma AlnumsTrimEnd(s: string)
    ensures Alnums(ToLower(TrimEnd(s))) == Alnums(ToLower(s))
  {
    var ls, lv := ToLower(s), ToLower(TrimEnd(s));
    var m := |TrimEnd(s)|;
    forall k | m <= k < |s|
      ensures !IsLowerAlnum(ls[k])
    {
      SpaceIsNotAlnum(s[k]);
    }
    ToLowerSlices(s, m);
    AlnumsDropBack(ls, lv);
  }

  lemma AlnumsTrim(s: string)
    ensures Alnums(ToLower(Trim(s))) == Alnums(ToLower(s))
  {
    AlnumsTrimStart(s);
    AlnumsTrimEnd(TrimStart(s));
  }

  lemma {:induction false} AlnumsKeepAllowed(s: string)
    ensures Alnums(KeepAllowed(s)) == Alnums(s)
  {
    if s != [] {
      AlnumsKeepAllowed(s[1..]);
    }
  }

  lemma {:induction false} AlnumsHyphenate(s: string)
    ensures Alnums(HyphenateSpaces(s)) == Alnums(s)
    decreases |s|
  {
    if s != [] {
      if IsSpace(s[0]) {
        var t := TrimStart(s[1..]);
        AlnumsHyphenate(t);
        AlnumsDropFront(s[1..], t);
      } else {
        AlnumsHyphenate(s[1..]);
      }
    }
  }

  lemma {:induction false} AlnumsCollapse(s: string)
    ensures Alnums(CollapseHyphens(s)) == Alnums(s)
    decreases |s|
  {
    if s != [] {
      if s[0] == '-' {
        var t := SkipHyphens(s[1..]);
        AlnumsCollapse(t);
        AlnumsDropFront(s[1..], t);
      } else {
        AlnumsCollapse(s[1..]);
      }
    }
  }

  /** The slug keeps exactly the letters and digits of the lowercased text,
      in their order; everything else it holds is hyphens. */
  lemma SlugifyKeepsAlnums(text: string)
    ensures Alnums(Slugify(text)) == Alnums(ToLower(text))
  {
    var low := ToLower(Trim(text));
    AlnumsTrim(text);
    AlnumsKeepAllowed(low);
    AlnumsHyphenate(KeepAllowed(low));
    AlnumsCollapse(HyphenateSpaces(KeepAllowed(low)));
  }

  lemma {:induction false} KeepAllowedEmpty(s: string)
    ensures KeepAllowed(s) == [] <==> forall k :: 0 <= k < |s| ==> !IsKept(s[k])
  {
    if s != [] {
      KeepAllowedEmpty(s[1..]);
      assert forall k :: 1 <= k < |s| ==> s[k] == s[1..][k - 1];
    }
  }

  /** The slug is empty exactly when the trimmed text holds no character
      that the first `replace` keeps, once lowercased. */
  lemma SlugifyEmpty(text: string)
    ensures Slugify(text) == []
            <==> forall k :: 0 <= k < |Trim(text)| ==> !IsKept(LowerChar(Trim(text)[k]))
  {
    var t := Trim(text);
    KeepAllowedEmpty(ToLower(t));
    assert forall k :: 0 <= k < |t| ==> ToLower(t)[k] == LowerChar(t[k]);
  }

  // Whitespace runs: turning each run into one hyphen and then collapsing
  // hyphen runs gives what turning every single whitespace character into a
  // hyphen would give.

  /** Every whitespace character of `s` replaced by a hyphen of its own. */
  function DashSpaces(s: string): string {
    seq(|s|, k requires 0 <= k < |s| => if IsSpace(s[k]) then '-' else s[k])
  }

  lemma {:induction false} SkipHyphensAfterHyphens(h: string, y: string)
    requires forall k :: 0 <= k < |h| ==> h[k] == '-'
    ensures SkipHyphens(h + y) == SkipHyphens(y)
  {
    if h != [] {
      assert (h + y)[1..] == h[1..] + y;
      SkipHyphensAfterHyphens(h[1..], y);
    } else {
      assert h + y == y;
    }
  }

  lemma CollapseAfterSkip(x: string)
    ensures var c := CollapseHyphens(x);
            CollapseHyphens(SkipHyphens(x)) == if c != [] && c[0] == '-' then c[1..] else c
  {
    if x != [] && x[0] == '-' {
      assert SkipHyphens(x) == SkipHyphens(x[1..]);
    }
  }

  lemma CollapseCons(c: char, x: string, y: string)
    requires CollapseHyphens(x) == CollapseHyphens(y)
    ensures CollapseHyphens([c] + x) == CollapseHyphens([c] + y)
  {
    assert ([c] + x)[1..] == x && ([c] + y)[1..] == y;
    if c == '-' {
      CollapseAfterSkip(x);
      CollapseAfterSkip(y);
    }
  }

  lemma DashSpacesSplit(s: string, m: nat)
    requires m <= |s|
    ensures DashSpaces(s) == DashSpaces(s[..m]) + DashSpaces(s[m..])
  {
  }

  /** A run of hyphens collapses as a single hyphen would. */
  lemma CollapseHyphenRun(h: string, y: string)
    requires h != [] && forall k :: 0 <= k < |h| ==> h[k] == '-'
    ensures CollapseHyphens(h + y) == CollapseHyphens(['-'] + y)
  {
    assert (h + y)[0] == '-' && (h + y)[1..] == h[1..] + y;
    assert (['-'] + y)[1..] == y;
    SkipHyphensAfterHyphens(h[1..], y);
  }

  lemma {:induction false} CollapseHyphenateIsCollapseDash(s: string)
    ensures CollapseHyphens(HyphenateSpaces(s)) == CollapseHyphens(DashSpaces(s))
    decreases |s|
  {
    if s != [] {
      if IsSpace(s[0]) {
        var r := TrimStart(s[1..]);
        var m := |s| - |r|;
        assert s[m..] == r;
        DashSpacesSplit(s, m);
        CollapseHyphenRun(DashSpaces(s[..m]), DashSpaces(r));
        CollapseHyphenateIsCollapseDash(r);
        CollapseCons('-', HyphenateSpaces(r), DashSpaces(r));
      } else {
        assert DashSpaces(s) == [s[0]] + DashSpaces(s[1..]);
        CollapseHyphenateIsCollapseDash(s[1..]);
        CollapseCons(s[0], HyphenateSpaces(s[1..]), DashSpaces(s[1..]));
      }
    }
  }

  /** The slug character by character: of the trimmed, lowercased text, each
      whitespace character becomes a hyphen, each letter, digit or hyphen
      stays, every other character is removed, and then each hyphen run is
      one hyphen. */
  lemma SlugifyPerCharacter(text: string)
    ensures Slugify(text) == CollapseHyphens(DashSpaces(KeepAllowed(ToLower(Trim(text)))))
  {
    CollapseHyphenateIsCollapseDash(KeepAllowed(ToLower(Trim(text))));
  }

  // A full stop is deleted, not turned into a hyphen: "3.1" becomes "31",
  // and "3.1 Edge Cases!" becomes "31-edge-cases".

  lemma {:induction false} KeepAllowedAppend(a: string, b: string)
    ensures KeepAllowed(a + b) == KeepAllowed(a) + KeepAllowed(b)
  {
    if a != [] {
      assert (a + b)[0] == a[0];
      assert (a + b)[1..] == a[1..] + b;
      KeepAllowedAppend(a[1..], b);
    } else {
      assert a + b == b;
    }
  }

  /** A non-empty run of lowercase ASCII letters and digits. */
  predicate IsWord(s: string) {
    s != [] && forall k :: 0 <= k < |s| ==> IsLowerAlnum(s[k])
  }

  lemma WordsAroundFullStopArePlain(a: string, b: string)
    requires IsWord(a) && IsWord(b)
    ensures var s := a + "." + b;
            Trim(s) == s && ToLower(s) == s
  {
    var s := a + "." + b;
    forall k | 0 <= k < |s|
      ensures !('A' <= s[k] <= 'Z')
    {
      if k < |a| {
        SlugCharIsPlain(a[k]);
      } else if |a| < k {
        assert s[k] == b[k - |a| - 1];
        SlugCharIsPlain(b[k - |a| - 1]);
      }
    }
    assert s[0] == a[0] && s[|s| - 1] == b[|b| - 1];
    SlugCharIsPlain(a[0]);
    SlugCharIsPlain(b[|b| - 1]);
    TrimKeepsUnpadded(s);
    ToLowerKeepsLower(s);
  }

  lemma KeepAllowedDropsFullStop(a: string, b: string)
    requires IsWord(a) && IsWord(b)
    ensures KeepAllowed(a + "." + b) == a + b
  {
    calc {
      KeepAllowed(a + "." + b);
    == { KeepAllowedAppend(a + ".", b); }
      KeepAllowed(a + ".") + KeepAllowed(b);
    == { KeepAllowedAppend(a, "."); }
      KeepAllowed(a) + KeepAllowed(".") + KeepAllowed(b);
    == { assert KeepAllowed(".") == []; }
      KeepAllowed(a) + KeepAllowed(b);
    == { KeepAllowedKeepsKept(a); KeepAllowedKeepsKept(b); }
      a + b;
    }
  }

  lemma WordsAreFixed(s: string)
    requires forall k :: 0 <= k < |s| ==> IsLowerAlnum(s[k])
    ensures HyphenateSpaces(s) == s && CollapseHyphens(s) == s
  {
    forall k | 0 <= k < |s|
      ensures !IsSpace(s[k])
    {
      SlugCharIsPlain(s[k]);
    }
    HyphenateSpacelessIsIdentity(s);
    CollapseSingleHyphensIsIdentity(s);
  }

  /** Two words joined by a full stop slug to the two words run together. */
  lemma SlugifyDeletesFullStop(a: string, b: string)
    requires IsWord(a) && IsWord(b)
    ensures Slugify(a + "." + b) == a + b
  {
    WordsAroundFullStopArePlain(a, b);
    KeepAllowedDropsFullStop(a, b);
    WordsAreFixed(a + b);
  }
}
