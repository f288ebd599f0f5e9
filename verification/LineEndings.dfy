/**
 The line-ending lint and its fix, on the bytes of one text file.  Reading and writing the file,
 and telling text from binary, are the caller's.
 */
module LineEndings {
  import opened Results
  import opened Wire

  const LF: Byte := 10
  const CR: Byte := 13
  const TAB: Byte := 9
  const SPACE: Byte := 32

  // ---------- The byte-string operations the script uses ----------

  /** s.split(b"\n") */
  function Split(s: Bytes): (ls: seq<Bytes>)
    ensures ls != []
  {
    if s == [] then [[]]
    else
      var rest := Split(s[1..]);
      if s[0] == LF then [[]] + rest else [[s[0]] + rest[0]] + rest[1..]
  }

  /** b"\n".join(ls) */
  function Join(ls: seq<Bytes>): Bytes
    requires ls != []
  {
    if |ls| == 1 then ls[0] else ls[0] + [LF] + Join(ls[1..])
  }

  /** s.rstrip(chars) */
  function RStrip(s: Bytes, chars: set<Byte>): Bytes {
    if s != [] && s[|s| - 1] in chars then RStrip(s[..|s| - 1], chars) else s
  }

  /** s.replace(b"\r\n", b"\n") */
  function ReplaceCRLF(s: Bytes): Bytes {
    if |s| >= 2 && s[0] == CR && s[1] == LF then [LF] + ReplaceCRLF(s[2..])
    else if s == [] then []
    else [s[0]] + ReplaceCRLF(s[1..])
  }

  /** s.replace(b"\r", b"") */
  function RemoveCR(s: Bytes): Bytes {
    if s == [] then [] else if s[0] == CR then RemoveCR(s[1..]) else [s[0]] + RemoveCR(s[1..])
  }

  function StripLines(ls: seq<Bytes>): (r: seq<Bytes>)
    ensures |r| == |ls| && forall i | 0 <= i < |ls| :: r[i] == RStrip(ls[i], {SPACE, TAB})
  {
    seq(|ls|, i requires 0 <= i < |ls| => RStrip(ls[i], {SPACE, TAB}))
  }

  // ---------- Lint and fix ----------

  predicate HasCR(s: Bytes) {
    CR in s
  }

  predicate LineTrails(l: Bytes) {
    RStrip(RStrip(l, {CR}), {SPACE, TAB}) != RStrip(l, {CR})
  }

  predicate HasTrailingSpace(s: Bytes) {
    var ls := Split(s);
    exists i | 0 <= i < |ls| :: LineTrails(ls[i])
  }

  predicate HasNewline(s: Bytes) {
    s != [] && s[|s| - 1] == LF
  }

  predicate LintClean(s: Bytes) {
    !HasCR(s) && !HasTrailingSpace(s) && HasNewline(s)
  }

  function Fix(s: Bytes): Bytes {
    var t := RemoveCR(ReplaceCRLF(s));
    var fixed := Join(StripLines(Split(t)));
    if HasNewline(fixed) then fixed else fixed + [LF]
  }

  // ---------- How they relate ----------

  ghost predicate NoLF(ls: seq<Bytes>) {
    forall i | 0 <= i < |ls| :: LF !in ls[i]
  }

  lemma {:induction false} SplitHasNoLF(s: Bytes)
    ensures NoLF(Split(s)) && Join(Split(s)) == s
  {
    if s != [] {
      SplitHasNoLF(s[1..]);
      var rest := Split(s[1..]);
      if s[0] == LF {
        assert ([[]] + rest)[1..] == rest;
        assert Join(Split(s)) == [] + [LF] + s[1..];
      } else if |rest| == 1 {
        assert Join(Split(s)) == [s[0]] + rest[0];
      } else {
        assert ([[s[0]] + rest[0]] + rest[1..])[1..] == rest[1..];
        assert Join(Split(s)) == [s[0]] + (rest[0] + [LF] + Join(rest[1..]));
      }
    }
  }

  lemma {:induction false} SplitLine(l: Bytes, rest: Bytes)
    requires LF !in l
    ensures Split(l + [LF] + rest) == [l] + Split(rest)
  {
    if l == [] {
      assert l + [LF] + rest == [LF] + rest && ([LF] + rest)[1..] == rest;
    } else {
      SplitLine(l[1..], rest);
      assert (l + [LF] + rest)[1..] == l[1..] + [LF] + rest;
      assert [l[0]] + l[1..] == l;
    }
  }

  lemma {:induction false} SplitOneLine(l: Bytes)
    requires LF !in l
    ensures Split(l) == [l]
  {
    if l != [] {
      SplitOneLine(l[1..]);
      assert [l[0]] + l[1..] == l;
    }
  }

  lemma {:induction false} SplitJoin(ls: seq<Bytes>)
    requires ls != [] && NoLF(ls)
    ensures Split(Join(ls)) == ls
    decreases |ls|
  {
    if |ls| == 1 {
      SplitOneLine(ls[0]);
    } else {
      SplitJoin(ls[1..]);
      SplitLine(ls[0], Join(ls[1..]));
      assert [ls[0]] + ls[1..] == ls;
    }
  }

  lemma {:induction false} JoinNewline(ls: seq<Bytes>)
    requires ls != []
    ensures Join(ls + [[]]) == Join(ls) + [LF]
    decreases |ls|
  {
    assert (ls + [[]])[1..] == ls[1..] + [[]];
    if |ls| == 1 {
      assert Join([[]]) == [];
      assert ls[1..] + [[]] == [[]];
    } else {
      JoinNewline(ls[1..]);
    }
  }

  lemma {:induction false} RStripProps(s: Bytes, chars: set<Byte>)
    ensures RStrip(s, chars) <= s
    ensures RStrip(RStrip(s, chars), chars) == RStrip(s, chars)
    decreases |s|
  {
    if s != [] && s[|s| - 1] in chars {
      RStripProps(s[..|s| - 1], chars);
    }
  }

  lemma RStripNothing(s: Bytes, chars: set<Byte>)
    requires forall b <- s :: b !in chars
    ensures RStrip(s, chars) == s
  {
    assert s != [] ==> s[|s| - 1] in s;
  }

  lemma {:induction false} RemovedCR(s: Bytes)
    ensures CR !in RemoveCR(s)
    ensures CR !in s ==> RemoveCR(s) == s
  {
    if s != [] {
      RemovedCR(s[1..]);
    }
  }

  lemma {:induction false} NothingToReplace(s: Bytes)
    requires CR !in s
    ensures ReplaceCRLF(s) == s
    decreases |s|
  {
    if s != [] {
      assert s[0] in s;
      NothingToReplace(s[1..]);
    }
  }

  lemma {:induction false} MemberOfLine(s: Bytes, i: nat, b: Byte)
    requires i < |Split(s)| && b in Split(s)[i]
    ensures b in s
  {
    if s != [] {
      var rest := Split(s[1..]);
      if s[0] == LF {
        MemberOfLine(s[1..], i - 1, b);
      } else if i > 0 || b != s[0] {
        MemberOfLine(s[1..], i, b);
      }
    }
  }

  lemma {:induction false} MemberOfJoin(ls: seq<Bytes>, b: Byte)
    requires ls != [] && b in Join(ls) && b != LF
    ensures exists i :: 0 <= i < |ls| && b in ls[i]
    decreases |ls|
  {
    if |ls| > 1 && b !in ls[0] {
      MemberOfJoin(ls[1..], b);
      var i :| 0 <= i < |ls[1..]| && b in ls[1..][i];
      assert b in ls[i + 1];
    }
  }

  /** Lines that are stripped and free of carriage returns, joined and ended, pass the lint. */
  lemma JoinedLinesAreClean(ls: seq<Bytes>)
    requires ls != [] && NoLF(ls) && HasNewline(Join(ls))
    requires forall i | 0 <= i < |ls| :: CR !in ls[i] && RStrip(ls[i], {SPACE, TAB}) == ls[i]
    ensures LintClean(Join(ls))
  {
    SplitJoin(ls);
    if CR in Join(ls) {
      MemberOfJoin(ls, CR);
    }
    forall i | 0 <= i < |ls| ensures RStrip(ls[i], {CR}) == ls[i] {
      RStripNothing(ls[i], {CR});
    }
  }

  /** The fixed text passes all three checks of the lint. */
  lemma FixedTextIsClean(s: Bytes)
    ensures LintClean(Fix(s))
  {
    hide RStrip, Split, Join, LintClean;
    var t := RemoveCR(ReplaceCRLF(s));
    RemovedCR(ReplaceCRLF(s));
    SplitHasNoLF(t);
    var ls := StripLines(Split(t));
    forall i | 0 <= i < |ls| ensures CR !in ls[i] && LF !in ls[i] && RStrip(ls[i], {SPACE, TAB}) == ls[i] {
      RStripProps(Split(t)[i], {SPACE, TAB});
      if CR in ls[i] {
        MemberOfLine(t, i, CR);
      }
    }
    if HasNewline(Join(ls)) {
      JoinedLinesAreClean(ls);
    } else {
      JoinNewline(ls);
      RStripNothing([], {SPACE, TAB});
      JoinedLinesAreClean(ls + [[]]);
    }
  }

  /** A text that passes is left alone. */
  lemma CleanTextStays(s: Bytes)
    requires LintClean(s)
    ensures Fix(s) == s
  {
    hide RStrip, Split, Join;
    NothingToReplace(s);
    RemovedCR(s);
    SplitHasNoLF(s);
    var ls := Split(s);
    forall i | 0 <= i < |ls| ensures RStrip(ls[i], {SPACE, TAB}) == ls[i] {
      if CR in ls[i] {
        MemberOfLine(s, i, CR);
      }
      RStripNothing(ls[i], {CR});
    }
    assert StripLines(ls) == ls;
  }

  /** The fix changes a text exactly when the lint complains about it. */
  lemma FixChangesIff(s: Bytes)
    ensures Fix(s) == s <==> LintClean(s)
  {
    hide Fix, LintClean;
    FixedTextIsClean(s);
    if LintClean(s) {
      CleanTextStays(s);
    }
  }

  lemma FixIsIdempotent(s: Bytes)
    ensures Fix(Fix(s)) == Fix(s)
  {
    hide Fix, LintClean;
    FixedTextIsClean(s);
    CleanTextStays(Fix(s));
  }

  // ---------- What the fix leaves alone ----------

  function IfVisible(b: Byte): Bytes {
    if b == LF || b == CR || b == TAB || b == SPACE then [] else [b]
  }

  /** The bytes that are not white space. */
  function Visible(s: Bytes): Bytes {
    if s == [] then [] else IfVisible(s[0]) + Visible(s[1..])
  }

  lemma VisibleNothing()
    ensures Visible([]) == []
  {}

  lemma VisibleCons(b: Byte, rest: Bytes)
    ensures Visible([b] + rest) == IfVisible(b) + Visible(rest)
  {
    assert ([b] + rest)[1..] == rest;
  }

  lemma {:induction false} VisibleConcat(a: Bytes, b: Bytes)
    ensures Visible(a + b) == Visible(a) + Visible(b)
  {
    hide IfVisible, Visible;
    if a == [] {
      assert a + b == b;
      VisibleNothing();
    } else {
      VisibleConcat(a[1..], b);
      VisibleCons(a[0], a[1..]);
      VisibleCons(a[0], a[1..] + b);
      assert [a[0]] + a[1..] == a && [a[0]] + (a[1..] + b) == a + b;
    }
  }

  lemma {:induction false} RStripVisible(s: Bytes)
    ensures Visible(RStrip(s, {SPACE, TAB})) == Visible(s)
    decreases |s|
  {
    hide Visible;
    if s != [] && s[|s| - 1] in {SPACE, TAB} {
      var last := s[|s| - 1];
      RStripVisible(s[..|s| - 1]);
      VisibleConcat(s[..|s| - 1], [last]);
      assert s[..|s| - 1] + [last] == s;
      VisibleCons(last, []);
      VisibleNothing();
      assert [last] + [] == [last] && Visible([last]) == [];
    }
  }

  lemma {:induction false} JoinVisible(ls: seq<Bytes>, rs: seq<Bytes>)
    requires ls != [] && |rs| == |ls| && forall i | 0 <= i < |ls| :: Visible(rs[i]) == Visible(ls[i])
    ensures Visible(Join(rs)) == Visible(Join(ls))
    decreases |ls|
  {
    if |ls| > 1 {
      JoinVisible(ls[1..], rs[1..]);
      VisibleConcat(ls[0] + [LF], Join(ls[1..]));
      VisibleConcat(rs[0] + [LF], Join(rs[1..]));
      VisibleConcat(ls[0], [LF]);
      VisibleConcat(rs[0], [LF]);
    }
  }

  lemma {:induction false} RemovalsVisible(s: Bytes)
    ensures Visible(RemoveCR(s)) == Visible(s) && Visible(ReplaceCRLF(s)) == Visible(s)
    decreases |s|
  {
    if s != [] {
      RemovalsVisible(s[1..]);
      if s[0] != CR {
        assert ([s[0]] + RemoveCR(s[1..]))[1..] == RemoveCR(s[1..]);
      }
      if |s| >= 2 && s[0] == CR && s[1] == LF {
        RemovalsVisible(s[2..]);
        assert ([LF] + ReplaceCRLF(s[2..]))[1..] == ReplaceCRLF(s[2..]);
        assert s[1..][1..] == s[2..];
      } else {
        assert ([s[0]] + ReplaceCRLF(s[1..]))[1..] == ReplaceCRLF(s[1..]);
      }
    }
  }

  /** The fix touches white space only. */
  lemma FixKeepsVisible(s: Bytes)
    ensures Visible(Fix(s)) == Visible(s)
  {
    hide Split, Join, RStrip;
    var r := ReplaceCRLF(s);
    var t := RemoveCR(r);
    RemovalsVisible(s);
    RemovalsVisible(r);
    SplitHasNoLF(t);
    var ls := Split(t);
    forall i | 0 <= i < |ls| ensures Visible(StripLines(ls)[i]) == Visible(ls[i]) {
      RStripVisible(ls[i]);
    }
    JoinVisible(ls, StripLines(ls));
    VisibleConcat(Join(StripLines(ls)), [LF]);
    assert Visible([LF]) == [];
  }

  // ---------- Stripping, and what the lint looks for, byte by byte ----------

  /** What is stripped is all of the characters, and what remains does not end in one. */
  lemma {:induction false} RStripIs(s: Bytes, chars: set<Byte>)
    ensures
      var r := RStrip(s, chars);
      r <= s && (r == [] || r[|r| - 1] !in chars) && forall i | |r| <= i < |s| :: s[i] in chars
    decreases |s|
  {
    if s != [] && s[|s| - 1] in chars {
      RStripIs(s[..|s| - 1], chars);
    }
  }

  function IfKept(b: Byte): Bytes {
    if b == CR then [] else [b]
  }

  lemma RemoveCRFromNothing()
    ensures RemoveCR([]) == []
  {}

  lemma RemoveCRCons(b: Byte, rest: Bytes)
    ensures RemoveCR([b] + rest) == IfKept(b) + RemoveCR(rest)
  {
    assert ([b] + rest)[1..] == rest;
  }

  /** Removing carriage returns goes byte by byte and drops nothing else. */
  lemma {:induction false} RemoveCRIs(a: Bytes, b: Bytes)
    ensures RemoveCR(a + b) == RemoveCR(a) + RemoveCR(b)
    ensures |a| == 1 ==> RemoveCR(a) == IfKept(a[0])
  {
    hide RemoveCR, IfKept;
    RemoveCRFromNothing();
    if a == [] {
      assert a + b == b;
    } else {
      RemoveCRIs(a[1..], b);
      RemoveCRCons(a[0], a[1..]);
      RemoveCRCons(a[0], a[1..] + b);
      assert [a[0]] + a[1..] == a && [a[0]] + (a[1..] + b) == a + b;
    }
  }

  /** A space or tab at i, followed by nothing but carriage returns up to a newline or the end. */
  ghost predicate TrailsAt(s: Bytes, i: int) {
    0 <= i < |s| && (s[i] == SPACE || s[i] == TAB) && LineIsOver(s, i + 1)
  }

  ghost predicate LineIsOver(s: Bytes, from: int) {
    exists j :: EndsLine(s, from, j)
  }

  ghost predicate EndsLine(s: Bytes, from: int, j: int) {
    0 <= from <= j <= |s| && (j == |s| || s[j] == LF) && forall m | from <= m < j :: s[m] == CR
  }

  lemma LineIsOverIn(l: Bytes, rest: Bytes, from: nat)
    requires LF !in l && from <= |l|
    ensures LineIsOver(l + [LF] + rest, from) <==> LineIsOver(l, from)
  {
    var s := l + [LF] + rest;
    assert forall m | 0 <= m < |l| :: s[m] == l[m] && l[m] in l;
    assert s[|l|] == LF;
    if j :| EndsLine(s, from, j) {
      assert EndsLine(l, from, j);
    }
    if j :| EndsLine(l, from, j) {
      assert EndsLine(s, from, j);
    }
  }

  lemma LineIsOverBeyond(l: Bytes, rest: Bytes, from: nat)
    requires |l| < from
    ensures LineIsOver(l + [LF] + rest, from) <==> LineIsOver(rest, from - |l| - 1)
  {
    var s, shift := l + [LF] + rest, |l| + 1;
    var from' := from - shift;
    assert forall m | |l| < m < |s| :: s[m] == rest[m - shift];
    assert forall m | 0 <= m < |rest| :: rest[m] == s[m + shift];
    if j :| EndsLine(s, from, j) {
      assert EndsLine(rest, from', j - shift);
    }
    if j :| EndsLine(rest, from', j) {
      assert EndsLine(s, from, j + shift);
    }
  }

  /** In one line: nothing but carriage returns are left. */
  lemma LineIsOverIff(l: Bytes, from: nat)
    requires LF !in l && from <= |l|
    ensures LineIsOver(l, from) <==> forall m | from <= m < |l| :: l[m] == CR
  {
    assert forall m | 0 <= m < |l| :: l[m] in l;
    if j :| EndsLine(l, from, j) {
      assert j == |l|;
    }
    if forall m | from <= m < |l| :: l[m] == CR {
      assert EndsLine(l, from, |l|);
    }
  }

  lemma LineTrailsIff(l: Bytes)
    requires LF !in l
    ensures LineTrails(l) <==> exists i :: TrailsAt(l, i)
  {
    hide RStrip, LineIsOver;
    var r := RStrip(l, {CR});
    RStripIs(l, {CR});
    RStripLast(r, {SPACE, TAB});
    if LineTrails(l) {
      LineIsOverIff(l, |r|);
      assert TrailsAt(l, |r| - 1);
    }
    if i :| TrailsAt(l, i) {
      LineIsOverIff(l, i + 1);
      StripsTo(l, r, i + 1);
    }
  }

  lemma StripsTo(l: Bytes, r: Bytes, n: nat)
    requires 0 < n <= |l| && r <= l && l[n - 1] != CR && forall m | n <= m < |l| :: l[m] == CR
    requires (r == [] || r[|r| - 1] != CR) && forall m | |r| <= m < |l| :: l[m] == CR
    ensures r == l[..n]
  {
    assert r != [] ==> r[|r| - 1] == l[|r| - 1];
  }

  lemma RStripLast(r: Bytes, chars: set<Byte>)
    ensures RStrip(r, chars) != r <==> r != [] && r[|r| - 1] in chars
  {
    if r != [] && r[|r| - 1] in chars {
      RStripIs(r[..|r| - 1], chars);
    }
  }

  lemma TrailsAcross(l: Bytes, rest: Bytes, i: nat)
    requires LF !in l
    ensures
      TrailsAt(l + [LF] + rest, i) <==>
      if i < |l| then TrailsAt(l, i) else i > |l| && TrailsAt(rest, i - |l| - 1)
  {
    hide LineIsOver;
    var s := l + [LF] + rest;
    if i < |l| {
      LineIsOverIn(l, rest, i + 1);
      assert s[i] == l[i];
    } else if i > |l| {
      LineIsOverBeyond(l, rest, i + 1);
      assert i < |s| ==> s[i] == rest[i - |l| - 1];
    }
  }

  /** The lint reports trailing white space exactly when some space or tab is followed by nothing but
      carriage returns up to a newline or the end. */
  lemma {:induction false} TrailingSpaceIff(s: Bytes)
    ensures HasTrailingSpace(s) <==> exists i :: TrailsAt(s, i)
    decreases |s|
  {
    hide Split, RStrip, TrailsAt;
    if LF !in s {
      SplitOneLine(s);
      LineTrailsIff(s);
      assert [s][0] == s;
      assert HasTrailingSpace(s) <==> LineTrails(s);
    } else {
      var l, rest := FirstLine(s);
      SplitLine(l, rest);
      TrailingSpaceIff(rest);
      LineTrailsIff(l);
      FirstLineTrails(l, Split(rest));
      assert HasTrailingSpace(s) <==> LineTrails(l) || HasTrailingSpace(rest);
      if i :| TrailsAt(s, i) {
        TrailsWithin(s, i);
        TrailsAcross(l, rest, i);
      }
      if i :| TrailsAt(l, i) {
        TrailsWithin(l, i);
        TrailsAcross(l, rest, i);
      }
      if i :| TrailsAt(rest, i) {
        TrailsWithin(rest, i);
        TrailsAcross(l, rest, i + |l| + 1);
      }
    }
  }

  lemma TrailsWithin(s: Bytes, i: int)
    requires TrailsAt(s, i)
    ensures 0 <= i < |s|
  {}

  lemma {:induction false} FirstLine(s: Bytes) returns (l: Bytes, rest: Bytes)
    requires LF in s
    ensures LF !in l && s == l + [LF] + rest
  {
    if s[0] == LF {
      l, rest := [], s[1..];
    } else {
      l, rest := FirstLine(s[1..]);
      l := [s[0]] + l;
    }
  }

  lemma FirstLineTrails(l: Bytes, ls: seq<Bytes>)
    ensures
      (exists i | 0 <= i < |ls| + 1 :: LineTrails(([l] + ls)[i])) <==>
      LineTrails(l) || exists i | 0 <= i < |ls| :: LineTrails(ls[i])
  {
    hide LineTrails;
    var all := [l] + ls;
    assert all[0] == l;
    assert forall i | 0 <= i < |ls| :: all[i + 1] == ls[i];
    if i :| 0 <= i < |ls| + 1 && LineTrails(all[i]) {
      assert i > 0 ==> all[i] == ls[i - 1];
    }
  }

  /** The three checks together: no carriage return, no blank in front of a newline or at the end, and
      a newline at the end. */
  lemma LintCleanIff(s: Bytes)
    ensures
      LintClean(s) <==>
      && s != [] && s[|s| - 1] == LF
      && (forall i | 0 <= i < |s| :: s[i] != CR)
      && forall i | 0 <= i < |s| - 1 && s[i + 1] == LF :: s[i] != SPACE && s[i] != TAB
  {
    hide HasTrailingSpace, TrailsAt;
    TrailingSpaceIff(s);
    assert HasCR(s) <==> exists i :: 0 <= i < |s| && s[i] == CR;
    if s != [] && s[|s| - 1] == LF && !HasCR(s) {
      forall i | 0 <= i < |s| - 1 && s[i + 1] == LF && !HasTrailingSpace(s) ensures s[i] != SPACE && s[i] != TAB {
        TrailsWithoutCR(s, i);
      }
      if i :| TrailsAt(s, i) {
        TrailsWithin(s, i);
        TrailsWithoutCR(s, i);
      }
    }
  }

  lemma TrailsWithoutCR(s: Bytes, i: nat)
    requires s != [] && s[|s| - 1] == LF && CR !in s
    ensures TrailsAt(s, i) <==> i < |s| - 1 && s[i + 1] == LF && (s[i] == SPACE || s[i] == TAB)
  {
    hide EndsLine;
    if i < |s| - 1 {
      OverWithoutCR(s, i + 1);
    }
  }

  lemma OverWithoutCR(s: Bytes, from: nat)
    requires from < |s| && CR !in s
    ensures LineIsOver(s, from) <==> s[from] == LF
  {
    assert forall m | 0 <= m < |s| :: s[m] in s;
    if s[from] == LF {
      assert EndsLine(s, from, from);
    }
  }

  // ---------- Line by line ----------

  lemma {:induction false} ReplacingFirstIsNoDifferent(s: Bytes)
    ensures RemoveCR(ReplaceCRLF(s)) == RemoveCR(s)
    decreases |s|
  {
    if |s| >= 2 && s[0] == CR && s[1] == LF {
      ReplacingFirstIsNoDifferent(s[2..]);
      assert s[1..][1..] == s[2..];
    } else if s != [] {
      ReplacingFirstIsNoDifferent(s[1..]);
    }
  }

  function RemoveCRs(ls: seq<Bytes>): (r: seq<Bytes>)
    ensures |r| == |ls| && forall i | 0 <= i < |ls| :: r[i] == RemoveCR(ls[i])
  {
    seq(|ls|, i requires 0 <= i < |ls| => RemoveCR(ls[i]))
  }

  lemma {:induction false} SplitAfterRemoval(s: Bytes)
    ensures Split(RemoveCR(s)) == RemoveCRs(Split(s))
  {
    if s != [] {
      SplitAfterRemoval(s[1..]);
      var rest := Split(s[1..]);
      var shorter := RemoveCRs(rest);
      if s[0] == LF {
        assert RemoveCRs([[]] + rest) == [[]] + shorter;
      } else {
        var longer := [[s[0]] + rest[0]] + rest[1..];
        assert RemoveCRs(longer) == [RemoveCR([s[0]] + rest[0])] + shorter[1..];
        assert RemoveCRs(longer) == if s[0] == CR then shorter else [[s[0]] + shorter[0]] + shorter[1..];
      }
    }
  }

  /**
   Every line of the fixed text is the line of the original at the same place, without its carriage
   returns and then without the spaces and tabs at its end; one empty line follows when the lines
   so joined do not already end in a newline.
   */
  lemma FixWorksLineByLine(s: Bytes)
    ensures
      var lines := StripLines(RemoveCRs(Split(s)));
      Split(Fix(s)) == if HasNewline(Join(lines)) then lines else lines + [[]]
  {
    hide RStrip, Split, Join, StripLines;
    ReplacingFirstIsNoDifferent(s);
    SplitAfterRemoval(s);
    var t := RemoveCR(s);
    SplitHasNoLF(t);
    var ls := StripLines(Split(t));
    forall i | 0 <= i < |ls| ensures LF !in ls[i] {
      RStripProps(Split(t)[i], {SPACE, TAB});
    }
    SplitJoin(ls);
    if !HasNewline(Join(ls)) {
      JoinNewline(ls);
      SplitJoin(ls + [[]]);
    }
  }

  // ---------- The script's work on one file ----------

  datatype Outcome =
    | Silent
    | Fixing(rewrite: Option<Bytes>)
    | Complaints(trailingSpace: bool, crlf: bool, missingNewline: bool)

  /** The outcome for a file's content, None when the path names no file or cannot be read. */
  function ProcessFile(content: Option<Bytes>, fix: bool): Outcome {
    match content
    case None => Silent
    case Some(bytes) =>
      if bytes == [] || 0 in bytes || LintClean(bytes) then Silent
      else if fix then Fixing(if Fix(bytes) != bytes then Some(Fix(bytes)) else None)
      else Complaints(HasTrailingSpace(bytes), HasCR(bytes), !HasNewline(bytes))
  }

  function AfterFixing(content: Option<Bytes>): Option<Bytes> {
    match ProcessFile(content, true)
    case Fixing(Some(bytes)) => Some(bytes)
    case _ => content
  }

  /**
   Fix mode speaks up exactly where lint mode does, and then it does write; a lint afterwards
   has nothing to say, because of the repair and not because the file has come to look
   empty or binary.
   */
  lemma FixModeSatisfiesLintMode(content: Option<Bytes>)
    ensures ProcessFile(content, true).Silent? <==> ProcessFile(content, false).Silent?
    ensures ProcessFile(content, true).Fixing? ==> ProcessFile(content, true).rewrite.Some?
    ensures ProcessFile(AfterFixing(content), false) == Silent
    ensures AfterFixing(content) != content ==>
              var bytes := AfterFixing(content).value;
              LintClean(bytes) && bytes != [] && 0 !in bytes
    ensures var outcome := ProcessFile(content, false);
            outcome.Complaints? ==> outcome.trailingSpace || outcome.crlf || outcome.missingNewline
  {
    hide Fix, HasTrailingSpace, HasNewline;
    if content.Some? {
      var bytes := content.value;
      FixChangesIff(bytes);
      FixedTextIsClean(bytes);
      CleanIsNotEmpty(Fix(bytes));
      if 0 in Fix(bytes) {
        FixKeepsVisible(bytes);
        VisibleMember(bytes, 0);
        VisibleMember(Fix(bytes), 0);
      }
    }
  }

  /** The script is silent exactly about files it cannot read, empty files, files with a NUL byte, and files
      in which nothing is wrong; and each complaint stands for what it says. */
  lemma OutcomeIff(content: Option<Bytes>, fix: bool)
    ensures
      ProcessFile(content, fix).Silent? <==>
      content.None? || content.value == [] || 0 in content.value
      || (CR !in content.value && !(exists i :: TrailsAt(content.value, i))
          && content.value[|content.value| - 1] == LF)
    ensures ProcessFile(content, fix).Fixing? ==> fix && ProcessFile(content, fix).rewrite == Some(Fix(content.value))
    ensures
      ProcessFile(content, fix).Complaints? ==>
        var outcome := ProcessFile(content, fix);
        !fix
        && (outcome.trailingSpace <==> exists i :: TrailsAt(content.value, i))
        && (outcome.crlf <==> CR in content.value)
        && (outcome.missingNewline <==> content.value[|content.value| - 1] != LF)
  {
    hide Fix, HasTrailingSpace, TrailsAt;
    if content.Some? {
      TrailingSpaceIff(content.value);
      FixChangesIff(content.value);
    }
  }

  lemma CleanIsNotEmpty(s: Bytes)
    requires LintClean(s)
    ensures s != []
  {
  }

  lemma {:induction false} VisibleMember(s: Bytes, b: Byte)
    requires IfVisible(b) == [b]
    ensures b in s <==> b in Visible(s)
  {
    if s != [] {
      VisibleMember(s[1..], b);
    }
  }
}
