/**
 * The filename sanitiser of the QR contact generator: a four-stage string
 * transform (lower-case, mask everything outside [a-z0-9] with a hyphen,
 * collapse runs of hyphens, strip one hyphen from each end).
 *
 * Lower-casing is ASCII only: 'A'..'Z' become 'a'..'z' and every other
 * character is left as it is (and is then masked, since it is not in [a-z0-9]).
 */
module Sanitize {

  const Hyphen: char := '-'

  /** Characters matched by the class [a-z0-9]. */
  predicate IsAlnum(c: char) {
    ('a' <= c <= 'z') || ('0' <= c <= '9')
  }

  /** Characters a sanitised name may contain: [a-z0-9-]. */
  predicate InAlphabet(c: char) {
    IsAlnum(c) || c == Hyphen
  }

  predicate AllInAlphabet(s: string) {
    forall i :: 0 <= i < |s| ==> InAlphabet(s[i])
  }

  ghost predicate NoDoubleHyphen(s: string) {
    forall i, j :: 0 <= i < j < |s| && j == i + 1 ==> !(s[i] == Hyphen && s[j] == Hyphen)
  }

  predicate NoEdgeHyphen(s: string) {
    |s| > 0 ==> s[0] != Hyphen && s[|s| - 1] != Hyphen
  }

  /** The shape every output of SanitizeFilename has. */
  ghost predicate IsClean(s: string) {
    AllInAlphabet(s) && NoDoubleHyphen(s) && NoEdgeHyphen(s)
  }

  function LowerChar(c: char): (d: char)
    ensures 'A' <= c <= 'Z' ==> 'a' <= d <= 'z' && d as int - c as int == 'a' as int - 'A' as int
    ensures !('A' <= c <= 'Z') ==> d == c
  {
    if 'A' <= c <= 'Z' then (c as int - 'A' as int + 'a' as int) as char else c
  }

  /** Stage 1: String.prototype.toLowerCase, restricted to ASCII letters. */
  function ToLower(s: string): (r: string)
    ensures |r| == |s|
    ensures forall i :: 0 <= i < |s| ==> r[i] == LowerChar(s[i])
  {
    if s == [] then [] else [LowerChar(s[0])] + ToLower(s[1..])
  }

  function MaskChar(c: char): char {
    if IsAlnum(c) then c else Hyphen
  }

  /** Stage 2: replace(/[^a-z0-9]/g, '-'). */
  function MaskNonAlnum(s: string): (r: string)
    ensures |r| == |s|
    ensures forall i :: 0 <= i < |s| ==> r[i] == MaskChar(s[i])
    ensures AllInAlphabet(r)
  {
    if s == [] then [] else [MaskChar(s[0])] + MaskNonAlnum(s[1..])
  }

  /**
   * Stage 3: replace(/-+/g, '-'). Of a run of hyphens only the last one is
   * kept; every other character is kept.
   */
  function CollapseHyphens(s: string): (r: string)
    ensures |r| <= |s|
    ensures |s| > 0 ==> |r| > 0 && r[0] == s[0] && r[|r| - 1] == s[|s| - 1]
    ensures AllInAlphabet(s) ==> AllInAlphabet(r)
    ensures NoDoubleHyphen(r)
  {
    if |s| <= 1 then s
    else if s[0] == Hyphen && s[1] == Hyphen then CollapseHyphens(s[1..])
    else [s[0]] + CollapseHyphens(s[1..])
  }

  /**
   * Stage 4: replace(/^-|-$/g, ''). At most one hyphen goes from the front
   * and at most one from the back; "-" becomes "".
   */
  function StripEdgeHyphens(s: string): (r: string)
    ensures EdgeTrimmed(s, r)
    ensures |s| > 0 && s[0] == Hyphen ==> |r| < |s|
    ensures |s| > 1 && s[|s| - 1] == Hyphen ==> |r| < |s| - (if s[0] == Hyphen then 1 else 0)
    ensures NoDoubleHyphen(s) ==> NoEdgeHyphen(r) && NoDoubleHyphen(r)
    ensures AllInAlphabet(s) ==> AllInAlphabet(r)
    ensures NoEdgeHyphen(s) ==> r == s
  {
    var a := if |s| > 0 && s[0] == Hyphen then s[1..] else s;
    if |a| > 0 && a[|a| - 1] == Hyphen then a[..|a| - 1] else a
  }

  /**
   * r is s with at most its first and at most its last character removed,
   * each only when it is a hyphen.
   */
  predicate EdgeTrimmed(s: string, r: string) {
    r == s ||
    (|s| >= 1 && s[0] == Hyphen && r == s[1..]) ||
    (|s| >= 1 && s[|s| - 1] == Hyphen && r == s[..|s| - 1]) ||
    (|s| >= 2 && s[0] == Hyphen && s[|s| - 1] == Hyphen && r == s[1..|s| - 1])
  }

  /** sanitizeFilename (src/generate-qr.js, lines 80-87). */
  function SanitizeFilename(s: string): (r: string)
    ensures IsClean(r)
  {
    StripEdgeHyphens(CollapseHyphens(MaskNonAlnum(ToLower(s))))
  }

  /** The characters of s that are in [a-z0-9], in order. */
  function Alnums(s: string): (r: string)
    ensures |r| <= |s|
    ensures forall i :: 0 <= i < |r| ==> IsAlnum(r[i])
  {
    if s == [] then [] else (if IsAlnum(s[0]) then [s[0]] else []) + Alnums(s[1..])
  }

  /** s with every hyphen removed. */
  function DropHyphens(s: string): (r: string)
    ensures |r| <= |s|
    ensures forall i :: 0 <= i < |r| ==> r[i] != Hyphen
  {
    if s == [] then [] else (if s[0] == Hyphen then [] else [s[0]]) + DropHyphens(s[1..])
  }

  // ---------------------------------------------------------------------
  // Idempotence

  lemma {:induction false} CollapseKeepsNoDouble(s: string)
    requires NoDoubleHyphen(s)
    ensures CollapseHyphens(s) == s
  {
    if |s| > 1 {
      assert !(s[0] == Hyphen && s[1] == Hyphen) by { assert !(s[1 - 1] == Hyphen && s[1] == Hyphen); }
      assert NoDoubleHyphen(s[1..]) by {
        forall i | 0 < i < |s[1..]| ensures !(s[1..][i - 1] == Hyphen && s[1..][i] == Hyphen) {
          assert s[1..][i - 1] == s[i] && s[1..][i] == s[i + 1];
        }
      }
      CollapseKeepsNoDouble(s[1..]);
      assert [s[0]] + s[1..] == s;
    }
  }

  /** Lower-casing and masking leave a string over [a-z0-9-] as it is. */
  lemma AlphabetFixed(s: string)
    requires AllInAlphabet(s)
    ensures ToLower(s) == s && MaskNonAlnum(s) == s
  {
    assert ToLower(s) == s;
    assert MaskNonAlnum(s) == s;
  }

  /** A clean string is a fixed point of each stage, hence of the whole sanitiser. */
  lemma CleanIsFixpoint(s: string)
    requires IsClean(s)
    ensures SanitizeFilename(s) == s
  {
    AlphabetFixed(s);
    CollapseKeepsNoDouble(s);
  }

  lemma SanitizeIdempotent(s: string)
    ensures SanitizeFilename(SanitizeFilename(s)) == SanitizeFilename(s)
  {
    CleanIsFixpoint(SanitizeFilename(s));
  }

  /** The fixed points of the sanitiser are exactly the clean strings. */
  lemma SanitizeFixpointIff(s: string)
    ensures SanitizeFilename(s) == s <==> IsClean(s)
  {
    if IsClean(s) {
      CleanIsFixpoint(s);
    }
  }

  // ---------------------------------------------------------------------
  // Preservation of letters and digits

  lemma {:induction false} AlnumsAppend(a: string, b: string)
    ensures Alnums(a + b) == Alnums(a) + Alnums(b)
  {
    if a == [] {
      assert a + b == b;
    } else {
      assert (a + b)[0] == a[0] && (a + b)[1..] == a[1..] + b;
      AlnumsAppend(a[1..], b);
    }
  }

  lemma {:induction false} MaskKeepsAlnums(s: string)
    ensures Alnums(MaskNonAlnum(s)) == Alnums(s)
  {
    if s != [] {
      assert MaskNonAlnum(s)[1..] == MaskNonAlnum(s[1..]);
      MaskKeepsAlnums(s[1..]);
    }
  }

  lemma {:induction false} CollapseKeepsAlnums(s: string)
    ensures Alnums(CollapseHyphens(s)) == Alnums(s)
  {
    if |s| > 1 {
      CollapseKeepsAlnums(s[1..]);
      if !(s[0] == Hyphen && s[1] == Hyphen) {
        var r := CollapseHyphens(s);
        assert r[0] == s[0] && r[1..] == CollapseHyphens(s[1..]);
      }
    }
  }

  lemma StripKeepsAlnums(s: string)
    ensures Alnums(StripEdgeHyphens(s)) == Alnums(s)
  {
    var a := if |s| > 0 && s[0] == Hyphen then s[1..] else s;
    assert Alnums(a) == Alnums(s);
    if |a| > 0 && a[|a| - 1] == Hyphen {
      DropLastHyphenKeepsAlnums(a);
    }
  }

  lemma DropLastHyphenKeepsAlnums(a: string)
    requires |a| > 0 && a[|a| - 1] == Hyphen
    ensures Alnums(a[..|a| - 1]) == Alnums(a)
  {
    var init := a[..|a| - 1];
    AlnumsAppend(init, [Hyphen]);
    assert init + [Hyphen] == a;
    assert Alnums([Hyphen]) == [];
  }

  lemma {:induction false} DropHyphensOfAlphabet(s: string)
    requires AllInAlphabet(s)
    ensures DropHyphens(s) == Alnums(s)
  {
    if s != [] {
      DropHyphensOfAlphabet(s[1..]);
    }
  }

  /**
   * Removing the hyphens from the sanitised string leaves exactly the
   * lower-cased ASCII letters and digits of the input, in their order.
   */
  lemma SanitizeKeepsAlnums(s: string)
    ensures DropHyphens(SanitizeFilename(s)) == Alnums(ToLower(s))
  {
    var m := MaskNonAlnum(ToLower(s));
    MaskKeepsAlnums(ToLower(s));
    CollapseKeepsAlnums(m);
    StripKeepsAlnums(CollapseHyphens(m));
    DropHyphensOfAlphabet(SanitizeFilename(s));
  }

  lemma {:induction false} NoAlnumsAllHyphens(s: string)
    requires AllInAlphabet(s) && DropHyphens(s) == []
    ensures forall i :: 0 <= i < |s| ==> s[i] == Hyphen
  {
    if s != [] {
      NoAlnumsAllHyphens(s[1..]);
      assert forall i :: 1 <= i < |s| ==> s[i] == s[1..][i - 1];
    }
  }

  /** The sanitised string is empty exactly when the input has no ASCII letter or digit. */
  lemma SanitizeEmptyIff(s: string)
    ensures SanitizeFilename(s) == [] <==> Alnums(ToLower(s)) == []
  {
    var r := SanitizeFilename(s);
    SanitizeKeepsAlnums(s);
    if Alnums(ToLower(s)) == [] && r != [] {
      NoAlnumsAllHyphens(r);
      assert false;
    }
  }

  // ---------------------------------------------------------------------
  // Where the hyphens go

  /** Collapsing works separately on either side of a character that is not a hyphen. */
  lemma {:induction false} CollapseSplit(a: string, b: string)
    requires a != [] && a[|a| - 1] != Hyphen
    ensures CollapseHyphens(a + b) == CollapseHyphens(a) + CollapseHyphens(b)
  {
    var s := a + b;
    if |a| == 1 {
      if b == [] {
        assert s == a;
      } else {
        assert s[0] == a[0] && s[1..] == b;
        assert CollapseHyphens(s) == [a[0]] + CollapseHyphens(b);
        assert CollapseHyphens(a) == a == [a[0]];
      }
    } else {
      var tail := a[1..];
      assert s[0] == a[0] && s[1] == a[1] && s[1..] == tail + b;
      CollapseSplit(tail, b);
      if a[0] == Hyphen && a[1] == Hyphen {
        assert CollapseHyphens(s) == CollapseHyphens(tail + b);
        assert CollapseHyphens(a) == CollapseHyphens(tail);
      } else {
        assert CollapseHyphens(s) == [a[0]] + CollapseHyphens(tail + b);
        assert CollapseHyphens(a) == [a[0]] + CollapseHyphens(tail);
        Assoc([a[0]], CollapseHyphens(tail), CollapseHyphens(b));
      }
    }
  }

  /** A run of one or more hyphens, not followed by another hyphen, becomes exactly one hyphen. */
  lemma {:induction false} CollapseHyphenRun(h: string, b: string)
    requires h != [] && forall i :: 0 <= i < |h| ==> h[i] == Hyphen
    requires b == [] || b[0] != Hyphen
    ensures CollapseHyphens(h + b) == [Hyphen] + CollapseHyphens(b)
  {
    if |h| == 1 {
      if b != [] {
        assert (h + b)[0] == Hyphen && (h + b)[1] == b[0] && (h + b)[1..] == b;
      } else {
        assert h + b == [Hyphen];
      }
    } else {
      assert (h + b)[0] == Hyphen && (h + b)[1] == Hyphen && (h + b)[1..] == h[1..] + b;
      CollapseHyphenRun(h[1..], b);
    }
  }

  lemma ToLowerAppend(a: string, b: string)
    ensures ToLower(a + b) == ToLower(a) + ToLower(b)
  {
    var l, r := ToLower(a + b), ToLower(a) + ToLower(b);
    forall i | 0 <= i < |l| ensures l[i] == r[i] {
      if i < |a| { assert (a + b)[i] == a[i]; } else { assert (a + b)[i] == b[i - |a|]; }
    }
  }

  lemma MaskAppend(a: string, b: string)
    ensures MaskNonAlnum(a + b) == MaskNonAlnum(a) + MaskNonAlnum(b)
  {
    var l, r := MaskNonAlnum(a + b), MaskNonAlnum(a) + MaskNonAlnum(b);
    forall i | 0 <= i < |l| ensures l[i] == r[i] {
      if i < |a| { assert (a + b)[i] == a[i]; } else { assert (a + b)[i] == b[i - |a|]; }
    }
  }

  /** A string without letters or digits masks to hyphens only. */
  lemma JunkMasksToHyphens(j: string)
    requires Alnums(ToLower(j)) == []
    ensures forall i :: 0 <= i < |MaskNonAlnum(ToLower(j))| ==> MaskNonAlnum(ToLower(j))[i] == Hyphen
  {
    var h := MaskNonAlnum(ToLower(j));
    MaskKeepsAlnums(ToLower(j));
    DropHyphensOfAlphabet(h);
    NoAlnumsAllHyphens(h);
  }

  /**
   * Between two clean, non-empty strings, any non-empty stretch without
   * letters or digits (spaces, punctuation, several hyphens) becomes exactly
   * one hyphen.
   */
  lemma SanitizeSeparator(p: string, j: string, q: string)
    requires IsClean(p) && p != [] && IsClean(q) && q != []
    requires j != [] && Alnums(ToLower(j)) == []
    ensures SanitizeFilename(p + j + q) == p + [Hyphen] + q
  {
    var h := MaskNonAlnum(ToLower(j));
    SeparatorMasked(p, j, q);
    JunkMasksToHyphens(j);
    SeparatorCollapsed(p, h, q);
    var t := p + [Hyphen] + q;
    assert t[0] == p[0] && t[|t| - 1] == q[|q| - 1];
  }

  /** Lower-casing and masking leave the clean parts alone and turn the junk into hyphens. */
  lemma SeparatorMasked(p: string, j: string, q: string)
    requires AllInAlphabet(p) && AllInAlphabet(q)
    ensures MaskNonAlnum(ToLower(p + j + q)) == p + (MaskNonAlnum(ToLower(j)) + q)
  {
    var lj := ToLower(j);
    ToLowerAppend(p + j, q);
    ToLowerAppend(p, j);
    AlphabetFixed(p);
    AlphabetFixed(q);
    assert ToLower(p + j + q) == p + lj + q;
    MaskAppend(p + lj, q);
    MaskAppend(p, lj);
    Assoc(p, MaskNonAlnum(lj), q);
  }

  /** Collapsing keeps the clean parts and leaves one hyphen of the run between them. */
  lemma SeparatorCollapsed(p: string, h: string, q: string)
    requires IsClean(p) && p != [] && IsClean(q) && q != []
    requires h != [] && forall i :: 0 <= i < |h| ==> h[i] == Hyphen
    ensures CollapseHyphens(p + (h + q)) == p + [Hyphen] + q
  {
    CollapseSplit(p, h + q);
    CollapseHyphenRun(h, q);
    CollapseKeepsNoDouble(p);
    CollapseKeepsNoDouble(q);
    Assoc(p, [Hyphen], q);
  }

  lemma Assoc<T>(u: seq<T>, v: seq<T>, w: seq<T>)
    ensures u + v + w == u + (v + w)
  {
  }

  /** Appending a hyphen to a clean, non-empty string is undone by the sanitiser. */
  lemma SanitizeCleanThenHyphen(s: string)
    requires IsClean(s) && s != []
    ensures SanitizeFilename(s + [Hyphen]) == s
  {
    var t := s + [Hyphen];
    CleanThenHyphenShape(s);
    AlphabetFixed(t);
    CollapseKeepsNoDouble(t);
    assert t[0] == s[0];
    assert t[..|t| - 1] == s;
  }

  lemma CleanThenHyphenShape(s: string)
    requires IsClean(s) && s != []
    ensures AllInAlphabet(s + [Hyphen]) && NoDoubleHyphen(s + [Hyphen])
  {
    var t := s + [Hyphen];
    forall i | 0 <= i < |t| ensures InAlphabet(t[i]) {
      if i < |s| { assert t[i] == s[i]; }
    }
    forall i, j | 0 <= i < j < |t| && j == i + 1 ensures !(t[i] == Hyphen && t[j] == Hyphen) {
      assert t[i] == s[i];
      if j < |s| { assert t[j] == s[j]; }
    }
  }

  /**
   * A character that is not a letter or digit, in front of a clean,
   * non-empty string, is dropped by the sanitiser.
   */
  lemma SanitizeJunkThenClean(c: char, s: string)
    requires !IsAlnum(LowerChar(c)) && IsClean(s) && s != []
    ensures SanitizeFilename([c] + s) == s
  {
    var t := [Hyphen] + s;
    JunkThenCleanMasked(c, s);
    HyphenThenCleanShape(s);
    CollapseKeepsNoDouble(t);
    assert t[1..] == s;
  }

  lemma JunkThenCleanMasked(c: char, s: string)
    requires !IsAlnum(LowerChar(c)) && AllInAlphabet(s)
    ensures MaskNonAlnum(ToLower([c] + s)) == [Hyphen] + s
  {
    AlphabetFixed(s);
    assert ToLower([c] + s) == [LowerChar(c)] + ToLower(s);
    assert MaskNonAlnum([LowerChar(c)] + s) == [Hyphen] + MaskNonAlnum(s);
  }

  lemma HyphenThenCleanShape(s: string)
    requires IsClean(s) && s != []
    ensures NoDoubleHyphen([Hyphen] + s)
  {
    var t := [Hyphen] + s;
    forall i, j | 0 <= i < j < |t| && j == i + 1 ensures !(t[i] == Hyphen && t[j] == Hyphen) {
      assert t[j] == s[j - 1];
      if i > 0 { assert t[i] == s[i - 1]; }
    }
  }

  /** A string whose lower-cased form is already clean sanitises to that form. */
  lemma SanitizeLowerClean(s: string, t: string)
    requires ToLower(s) == t && IsClean(t)
    ensures SanitizeFilename(s) == t
  {
    CleanIsFixpoint(t);
    AlphabetFixed(t);
  }

  /** Inputs that differ only in the case of ASCII letters sanitise alike. */
  lemma SanitizeIgnoresCase(s: string, t: string)
    requires |s| == |t| && forall i :: 0 <= i < |s| ==> LowerChar(s[i]) == LowerChar(t[i])
    ensures SanitizeFilename(s) == SanitizeFilename(t)
  {
    assert ToLower(s) == ToLower(t);
  }
}
