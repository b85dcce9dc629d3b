/**
 * Identifiers for outline headings (blog.js, generateTOC): the slug computed
 * from a heading's text and the positional id "heading-<index>-<slug>".
 */
module Slug {
  import opened Wrappers

  /** ASCII lower-casing, as `toLowerCase` does on ASCII text. */
  function Lower(c: char): char {
    if 'A' <= c <= 'Z' then (c as int + 32) as char else c
  }

  /** `toLowerCase` on ASCII text: each character lower-cased in place. */
  function LowerAll(s: string): (r: string)
    ensures |r| == |s|
    ensures forall i | 0 <= i < |s| :: r[i] == Lower(s[i])
  {
    if s == [] then [] else [Lower(s[0])] + LowerAll(s[1..])
  }

  /** The characters `[a-z0-9]` kept by the slugifier. */
  predicate IsSlugChar(c: char) {
    'a' <= c <= 'z' || '0' <= c <= '9'
  }

  predicate SlugOrDash(s: string) {
    forall i | 0 <= i < |s| :: IsSlugChar(s[i]) || s[i] == '-'
  }

  predicate NoDoubleDash(s: string) {
    forall i | 0 <= i < |s| - 1 :: !(s[i] == '-' && s[i + 1] == '-')
  }

  /** A well-formed slug: only `a-z`, `0-9` and `-`, no `-` at either end, never `--`. */
  predicate IsSlug(s: string) {
    && SlugOrDash(s)
    && NoDoubleDash(s)
    && (|s| > 0 ==> s[0] != '-' && s[|s| - 1] != '-')
  }

  /** The `[a-z0-9]` characters of `s`, in order: what the slugifier keeps of the text. */
  function Alnum(s: string): string {
    if s == [] then [] else (if IsSlugChar(s[0]) then [s[0]] else []) + Alnum(s[1..])
  }

  /** A trailing `-` adds nothing to the kept characters. */
  lemma {:induction false} AlnumDashSuffix(s: string)
    ensures Alnum(s + "-") == Alnum(s)
  {
    if s == [] {
      assert Alnum("-") == Alnum("-"[1..]);
    } else {
      assert (s + "-")[1..] == s[1..] + "-";
      AlnumDashSuffix(s[1..]);
    }
  }

  /** Drops the maximal prefix of characters outside `[a-z0-9]`. */
  function DropRun(s: string): (r: string)
    ensures |r| <= |s|
    ensures r == [] || IsSlugChar(r[0])
    ensures r == s[|s| - |r|..]
    ensures Alnum(r) == Alnum(s)
  {
    if s != [] && !IsSlugChar(s[0]) then DropRun(s[1..]) else s
  }

  /** `replace(/[^a-z0-9]+/g, "-")`: every maximal run outside `[a-z0-9]` becomes one `-`. */
  function Collapse(s: string): (r: string)
    ensures SlugOrDash(r) && NoDoubleDash(r)
    ensures r != [] <==> s != []
    ensures r != [] ==> (r[0] == '-' <==> !IsSlugChar(s[0]))
    ensures Alnum(r) == Alnum(s)
    decreases |s|
  {
    if s == [] then []
    else if IsSlugChar(s[0]) then
      var rest := Collapse(s[1..]);
      assert ([s[0]] + rest)[1..] == rest;
      [s[0]] + rest
    else
      var rest := Collapse(DropRun(s[1..]));
      assert (['-'] + rest)[1..] == rest;
      ['-'] + rest
  }

  /** Every character outside `[a-z0-9]` replaced by `-`, one for one. */
  function DashOthers(s: string): string {
    if s == [] then [] else [if IsSlugChar(s[0]) then s[0] else '-'] + DashOthers(s[1..])
  }

  /** Every run of `-` squeezed to a single `-`. */
  function SqueezeDashes(t: string): string {
    if |t| < 2 then t
    else if t[0] == '-' && t[1] == '-' then SqueezeDashes(t[1..])
    else [t[0]] + SqueezeDashes(t[1..])
  }

  /** A `-` followed by a run outside `[a-z0-9]` squeezes to that one `-`. */
  lemma {:induction false} SqueezeLeadingRun(u: string)
    ensures SqueezeDashes(['-'] + DashOthers(u)) == ['-'] + SqueezeDashes(DashOthers(DropRun(u)))
  {
    var t := ['-'] + DashOthers(u);
    assert t[1..] == DashOthers(u);
    if u == [] {
    } else if !IsSlugChar(u[0]) {
      assert DashOthers(u) == ['-'] + DashOthers(u[1..]);
      SqueezeLeadingRun(u[1..]);
    } else {
      assert DashOthers(u)[0] == u[0];
    }
  }

  /**
   * Collapsing agrees with the two-step reading of the pattern: replace every
   * character outside `[a-z0-9]` by `-`, then squeeze each run of `-` to one.
   */
  lemma {:induction false} CollapseIsSqueezedDashes(s: string)
    ensures Collapse(s) == SqueezeDashes(DashOthers(s))
    decreases |s|
  {
    if s == [] {
    } else if IsSlugChar(s[0]) {
      var t := DashOthers(s);
      assert t == [s[0]] + DashOthers(s[1..]);
      assert t[1..] == DashOthers(s[1..]);
      CollapseIsSqueezedDashes(s[1..]);
      if |t| >= 2 {
        assert SqueezeDashes(t) == [s[0]] + SqueezeDashes(t[1..]);
      }
    } else {
      assert DashOthers(s) == ['-'] + DashOthers(s[1..]);
      SqueezeLeadingRun(s[1..]);
      CollapseIsSqueezedDashes(DropRun(s[1..]));
    }
  }

  /**
   * `replace(/(^-|-$)/g, "")`: removes one leading and one trailing `-`, so
   * that collapsed text becomes a well-formed slug.
   */
  function TrimDashes(s: string): (r: string)
    ensures s == r || s == "-" + r || s == r + "-" || s == "-" + r + "-"
    ensures Alnum(r) == Alnum(s)
    ensures SlugOrDash(s) && NoDoubleDash(s) ==> IsSlug(r)
  {
    var t := if |s| > 0 && s[0] == '-' then s[1..] else s;
    var r := if |t| > 0 && t[|t| - 1] == '-' then t[..|t| - 1] else t;
    assert SlugOrDash(s) && NoDoubleDash(s) ==> IsSlug(r) by {
      if SlugOrDash(s) && NoDoubleDash(s) {
        assert SlugOrDash(t) && NoDoubleDash(t);
        if |s| > 0 && s[0] == '-' && |t| > 0 {
          assert t[0] == s[1];
        }
        if |t| > 0 && t[|t| - 1] == '-' {
          assert |r| > 0 ==> r[|r| - 1] == t[|t| - 2];
        }
      }
    }
    assert t == r || t == r + "-";
    assert s == t || s == "-" + t;
    assert Alnum(t) == Alnum(r) by {
      if t != r {
        AlnumDashSuffix(r);
      }
    }
    assert Alnum(s) == Alnum(t) by {
      if s != t {
        assert s[1..] == t;
      }
    }
    r
  }

  /**
   * The slug of a heading's text (blog.js:191-194): always well formed, and
   * made of the text's lower-cased `[a-z0-9]` characters, in order.
   */
  function Slugify(text: string): (r: string)
    ensures IsSlug(r)
    ensures Alnum(r) == Alnum(LowerAll(text))
  {
    TrimDashes(Collapse(LowerAll(text)))
  }

  lemma {:induction false} LowerAllKeepsSlug(s: string)
    requires SlugOrDash(s)
    ensures LowerAll(s) == s
  {
    if s != [] {
      assert SlugOrDash(s[1..]) by {
        forall i | 0 <= i < |s[1..]| ensures IsSlugChar(s[1..][i]) || s[1..][i] == '-' {
          assert s[1..][i] == s[i + 1];
        }
      }
      LowerAllKeepsSlug(s[1..]);
    }
  }

  lemma {:induction false} CollapseKeepsSlug(s: string)
    requires SlugOrDash(s) && NoDoubleDash(s)
    ensures Collapse(s) == s
    decreases |s|
  {
    if s != [] {
      var tail := s[1..];
      assert SlugOrDash(tail) && NoDoubleDash(tail) by {
        forall i | 0 <= i < |tail| ensures IsSlugChar(tail[i]) || tail[i] == '-' {
          assert tail[i] == s[i + 1];
        }
        forall i | 0 <= i < |tail| - 1 ensures !(tail[i] == '-' && tail[i + 1] == '-') {
          assert tail[i] == s[i + 1] && tail[i + 1] == s[i + 2];
        }
      }
      if !IsSlugChar(s[0]) {
        assert s[0] == '-';
        assert tail != [] ==> IsSlugChar(tail[0]) by {
          if tail != [] { assert s[1] == tail[0]; }
        }
        assert DropRun(tail) == tail;
      }
      CollapseKeepsSlug(tail);
    }
  }

  /** Slugifying a well-formed slug returns it unchanged. */
  lemma SlugifyKeepsSlug(s: string)
    requires IsSlug(s)
    ensures Slugify(s) == s
  {
    LowerAllKeepsSlug(s);
    CollapseKeepsSlug(s);
  }

  /** Slugify is idempotent. */
  lemma SlugifyIdempotent(text: string)
    ensures Slugify(Slugify(text)) == Slugify(text)
  {
    SlugifyKeepsSlug(Slugify(text));
  }

  // ---------------------------------------------------------------------
  // Decimal rendering of the heading index, as a template literal does.

  predicate IsDigit(c: char) {
    '0' <= c <= '9'
  }

  predicate AllDigits(s: string) {
    forall i | 0 <= i < |s| :: IsDigit(s[i])
  }

  function DigitChar(d: nat): (c: char)
    requires d < 10
    ensures IsDigit(c)
  {
    ('0' as int + d) as char
  }

  /** The decimal digits of `n`, without leading zeros. */
  function NatToString(n: nat): (r: string)
    ensures r != [] && AllDigits(r)
    decreases n
  {
    if n < 10 then [DigitChar(n)] else NatToString(n / 10) + [DigitChar(n % 10)]
  }

  /** The number a string of decimal digits denotes. */
  function DigitsValue(s: string): nat
    requires AllDigits(s)
  {
    if s == [] then 0
    else DigitsValue(s[..|s| - 1]) * 10 + (s[|s| - 1] as int - '0' as int)
  }

  lemma {:induction false} DigitsRoundTrip(n: nat)
    ensures DigitsValue(NatToString(n)) == n
    decreases n
  {
    if n >= 10 {
      var r := NatToString(n);
      assert r[..|r| - 1] == NatToString(n / 10);
      DigitsRoundTrip(n / 10);
    }
  }

  const IdPrefix: string := "heading-"

  /**
   * The id written on a heading that has none: `heading-${index}-${slug}`
   * (blog.js:196). It always reads back as the index and slug it was built from.
   */
  function HeadingId(index: nat, slug: string): (r: string)
    ensures ParseHeadingId(r) == Some((index, slug))
  {
    var digits := NatToString(index);
    var id := IdPrefix + digits + "-" + slug;
    assert id[..|IdPrefix|] == IdPrefix;
    var rest := id[|IdPrefix|..];
    assert rest == digits + "-" + slug;
    FirstDashAfterDigits(digits, slug);
    assert rest[..|digits|] == digits;
    assert rest[|digits| + 1..] == slug;
    DigitsRoundTrip(index);
    id
  }

  /** Position of the first `-` in `s`, if any. */
  function FirstDash(s: string): (r: Option<nat>)
    ensures r.Some? ==> r.value < |s| && s[r.value] == '-'
    ensures r.Some? ==> forall i | 0 <= i < r.value :: s[i] != '-'
    ensures r.None? ==> forall i | 0 <= i < |s| :: s[i] != '-'
  {
    if s == [] then None
    else if s[0] == '-' then Some(0)
    else match FirstDash(s[1..])
      case None => None
      case Some(k) => Some(k + 1)
  }

  lemma {:induction false} FirstDashAfterDigits(digits: string, tail: string)
    requires AllDigits(digits)
    ensures FirstDash(digits + "-" + tail) == Some(|digits|)
  {
    if digits != [] {
      assert (digits + "-" + tail)[1..] == digits[1..] + "-" + tail;
      FirstDashAfterDigits(digits[1..], tail);
    }
  }

  /**
   * Reads an id of the form "heading-<index>-<slug>" back into its index and
   * slug; the index digits end at the first `-` after the prefix.
   */
  function ParseHeadingId(id: string): Option<(nat, string)> {
    if |id| < |IdPrefix| || id[..|IdPrefix|] != IdPrefix then None
    else
      var rest := id[|IdPrefix|..];
      match FirstDash(rest)
      case None => None
      case Some(k) =>
        if k == 0 || !AllDigits(rest[..k]) then None
        else Some((DigitsValue(rest[..k]), rest[k + 1..]))
  }

  /** Distinct positions always give distinct generated ids, whatever the slugs. */
  lemma GeneratedIdsDistinct(i: nat, j: nat, s: string, t: string)
    requires i != j
    ensures HeadingId(i, s) != HeadingId(j, t)
  {
    assert ParseHeadingId(HeadingId(i, s)).value.0 != ParseHeadingId(HeadingId(j, t)).value.0;
  }
}
