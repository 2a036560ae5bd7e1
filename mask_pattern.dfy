/**
  The formatter.js mask that the phone-number controller derives from the
  example placeholder shown by intl-tel-input.

  The controller chains two global regular-expression replacements:
    1. every ASCII digit `[0-9]` becomes `9`;
    2. every match of `([9]\d{0,10})`, found left to right and greedily,
       becomes `{{` + match + `}}`.
  Step 1 is MaskDigits. Step 2 is split in two: Segment is the regular
  expression's scan (it cuts a string into literal characters and matched
  groups) and Render is the replacement text. Flatten forgets the grouping,
  and WellGrouped says declaratively what a scan of `9\d{0,10}` produces;
  SegmentUnique shows that Segment is the one well-grouped cut of its input.
*/
module MaskPattern {

  /** `\d` and `[0-9]` in JavaScript: the ten ASCII digits only. */
  predicate IsDigit(c: char) {
    '0' <= c <= '9'
  }

  /** A group is `9` followed by at most ten more digits. */
  const MaxGroup: nat := 11

  /** The mask chosen at start-up when the initial country is `us`. */
  const UsPattern: string := "({{999}}) {{999}}-{{9999}}"

  /** The mask chosen at start-up for any other initial country: one group of 22 digits. */
  const FallbackPattern: string := "{{9999999999999999999999}}"

  /** A placeholder in the layout intl-tel-input shows for the United States. */
  const UsExample: string := "(201) 555-0123"

  // ---------------------------------------------------------------------
  // Step 1: replace(/[0-9]/g, "9")
  // ---------------------------------------------------------------------

  function MaskDigits(s: string): (r: string)
    ensures |r| == |s|
    ensures forall i :: 0 <= i < |s| ==> r[i] == if IsDigit(s[i]) then '9' else s[i]
  {
    if s == [] then []
    else [if IsDigit(s[0]) then '9' else s[0]] + MaskDigits(s[1..])
  }

  /** A string in which the only digit is `9`, as every output of MaskDigits is. */
  predicate OnlyNines(s: string) {
    forall i :: 0 <= i < |s| ==> IsDigit(s[i]) ==> s[i] == '9'
  }

  lemma MaskDigitsOnlyNines(s: string)
    ensures OnlyNines(MaskDigits(s))
  {
  }

  // ---------------------------------------------------------------------
  // Step 2: replace(/([9]\d{0,10})/g, '{{$1}}')
  // ---------------------------------------------------------------------

  /** One piece of a scanned string: a character the expression did not match, or one match. */
  datatype Piece = Lit(c: char) | Group(digits: string)

  /** Length of the greedy `\d{0,max}` match at the start of `s`. */
  function DigitRun(s: string, max: nat): (n: nat)
    ensures n <= max && n <= |s|
  {
    if max == 0 || s == [] || !IsDigit(s[0]) then 0
    else 1 + DigitRun(s[1..], max - 1)
  }

  /** The run is all digits, and it stops early only at a non-digit. */
  lemma {:induction false} DigitRunSpec(s: string, max: nat)
    ensures forall k :: 0 <= k < DigitRun(s, max) ==> IsDigit(s[k])
    ensures DigitRun(s, max) < max && DigitRun(s, max) < |s| ==> !IsDigit(s[DigitRun(s, max)])
    decreases |s|
  {
    if max > 0 && s != [] && IsDigit(s[0]) {
      var t := s[1..];
      DigitRunSpec(t, max - 1);
      assert forall k :: 1 <= k < |s| ==> s[k] == t[k - 1];
    }
  }

  /**
    The global scan of `9\d{0,10}`: at a `9` the longest match is taken and
    the scan resumes after it; any other character is left as it is and the
    scan moves one place on.
  */
  function Segment(s: string): (ps: seq<Piece>)
    decreases |s|
  {
    if s == [] then []
    else if s[0] == '9' then
      var n := 1 + DigitRun(s[1..], MaxGroup - 1);
      [Group(s[..n])] + Segment(s[n..])
    else
      [Lit(s[0])] + Segment(s[1..])
  }

  function RenderPiece(p: Piece): string {
    match p
    case Lit(c) => [c]
    case Group(d) => "{{" + d + "}}"
  }

  /** The replacement: each match `m` is written as `{{m}}`, everything else is kept. */
  function Render(ps: seq<Piece>): string {
    if ps == [] then "" else RenderPiece(ps[0]) + Render(ps[1..])
  }

  function PieceText(p: Piece): string {
    match p
    case Lit(c) => [c]
    case Group(d) => d
  }

  /** The text a segmentation was cut from. */
  function Flatten(ps: seq<Piece>): string {
    if ps == [] then "" else PieceText(ps[0]) + Flatten(ps[1..])
  }

  /** One step of the scan at a `9`: the longest match, then the scan of what follows it. */
  lemma SegmentAtNine(s: string)
    requires s != [] && s[0] == '9'
    ensures var n := 1 + DigitRun(s[1..], MaxGroup - 1);
      n <= |s| && Segment(s) == [Group(s[..n])] + Segment(s[n..])
  {
  }

  /** One step of the scan at any other character. */
  lemma SegmentAtOther(s: string)
    requires s != [] && s[0] != '9'
    ensures Segment(s) == [Lit(s[0])] + Segment(s[1..])
  {
  }

  lemma FlattenCons(p: Piece, ps: seq<Piece>)
    ensures Flatten([p] + ps) == PieceText(p) + Flatten(ps)
  {
    assert ([p] + ps)[1..] == ps;
  }

  /** The mask for a placeholder: both replacements, in order. */
  function Derive(placeholder: string): string {
    Render(Segment(MaskDigits(placeholder)))
  }

  // ---------------------------------------------------------------------
  // What a scan of `9\d{0,10}` produces, stated without the scan
  // ---------------------------------------------------------------------

  predicate IsGroup(d: string) {
    1 <= |d| <= MaxGroup && d[0] == '9' && forall k :: 0 <= k < |d| ==> IsDigit(d[k])
  }

  predicate PieceOk(p: Piece) {
    match p
    case Lit(c) => c != '9'
    case Group(d) => IsGroup(d)
  }

  /** A match stops short of eleven characters only where the digits stop. */
  predicate Boundary(p: Piece, next: Piece) {
    p.Group? && |p.digits| < MaxGroup ==> next.Lit? && !IsDigit(next.c)
  }

  /**
    Every `9` opens a group, each group is a `9` and up to ten more digits,
    and a group shorter than eleven is never followed by a digit.
  */
  predicate WellGrouped(ps: seq<Piece>) {
    (forall i :: 0 <= i < |ps| ==> PieceOk(ps[i]))
    && (forall i :: 0 <= i < |ps| - 1 ==> Boundary(ps[i], ps[i + 1]))
  }

  lemma {:induction false} SegmentFlatten(s: string)
    ensures Flatten(Segment(s)) == s
    decreases |s|
  {
    if s == [] {
    } else if s[0] == '9' {
      var n := 1 + DigitRun(s[1..], MaxGroup - 1);
      SegmentAtNine(s);
      FlattenCons(Group(s[..n]), Segment(s[n..]));
      SegmentFlatten(s[n..]);
      SplitAt(s, n);
    } else {
      SegmentAtOther(s);
      FlattenCons(Lit(s[0]), Segment(s[1..]));
      SegmentFlatten(s[1..]);
      SplitAt(s, 1);
      assert s[..1] == [s[0]];
    }
  }

  /** The first piece of a scan, read off the first character. */
  lemma SegmentHead(s: string)
    requires s != []
    ensures Segment(s) != []
    ensures s[0] == '9' ==> Segment(s)[0].Group?
    ensures s[0] != '9' ==> Segment(s)[0] == Lit(s[0])
  {
  }

  lemma WellGroupedCons(p: Piece, ps: seq<Piece>)
    requires PieceOk(p) && WellGrouped(ps)
    requires ps != [] ==> Boundary(p, ps[0])
    ensures WellGrouped([p] + ps)
  {
    var qs := [p] + ps;
    forall i | 0 <= i < |qs| - 1
      ensures Boundary(qs[i], qs[i + 1])
    {
      if i > 0 {
        assert qs[i] == ps[i - 1] && qs[i + 1] == ps[i];
      }
    }
  }

  /** The match taken at a leading `9` is a group, and a group shorter than the limit stops at a non-digit. */
  lemma GroupAtHead(s: string)
    requires s != [] && s[0] == '9'
    ensures var n := 1 + DigitRun(s[1..], MaxGroup - 1);
      && n <= |s| && IsGroup(s[..n])
      && (n < MaxGroup && n < |s| ==> !IsDigit(s[n]))
  {
    var t := s[1..];
    var n := 1 + DigitRun(t, MaxGroup - 1);
    DigitRunSpec(t, MaxGroup - 1);
    assert forall k :: 0 < k < n ==> s[..n][k] == t[k - 1];
    assert n < |s| ==> s[n] == t[n - 1];
  }

  lemma {:induction false} SegmentWellGrouped(s: string)
    ensures WellGrouped(Segment(s))
    decreases |s|
  {
    if s == [] {
    } else if s[0] == '9' {
      var n := 1 + DigitRun(s[1..], MaxGroup - 1);
      var rest := s[n..];
      SegmentAtNine(s);
      GroupAtHead(s);
      SegmentWellGrouped(rest);
      if rest != [] {
        SegmentHead(rest);
        assert rest[0] == s[n];
      }
      WellGroupedCons(Group(s[..n]), Segment(rest));
    } else {
      SegmentAtOther(s);
      SegmentWellGrouped(s[1..]);
      if s[1..] != [] {
        SegmentHead(s[1..]);
      }
      WellGroupedCons(Lit(s[0]), Segment(s[1..]));
    }
  }

  /** The greedy digit run is the only length with the properties DigitRun and DigitRunSpec ensure. */
  lemma {:induction false} DigitRunIs(s: string, max: nat, m: nat)
    requires m <= max && m <= |s|
    requires forall k :: 0 <= k < m ==> IsDigit(s[k])
    requires m < max && m < |s| ==> !IsDigit(s[m])
    ensures DigitRun(s, max) == m
    decreases |s|
  {
    if m > 0 {
      var t := s[1..];
      assert forall k :: 0 <= k < m - 1 ==> t[k] == s[k + 1];
      assert m < |s| ==> t[m - 1] == s[m];
      DigitRunIs(t, max - 1, m - 1);
    }
  }

  /** The rest of a well-grouped cut is well grouped, and its head fits the piece before it. */
  lemma WellGroupedTail(ps: seq<Piece>)
    requires WellGrouped(ps) && ps != []
    ensures WellGrouped(ps[1..]) && PieceOk(ps[0])
    ensures |ps| > 1 ==> Boundary(ps[0], ps[1]) && ps[1..][0] == ps[1]
  {
    var tail := ps[1..];
    assert forall i :: 0 <= i < |tail| ==> tail[i] == ps[i + 1];
  }

  lemma ConsHead(ps: seq<Piece>)
    requires ps != []
    ensures [ps[0]] + ps[1..] == ps
  {
  }

  lemma FlattenHead(ps: seq<Piece>)
    requires ps != []
    ensures Flatten(ps) == PieceText(ps[0]) + Flatten(ps[1..])
  {
  }

  /** Segment is the one well-grouped cut of its input: the scan and the declarative reading agree. */
  lemma {:induction false} SegmentUnique(ps: seq<Piece>, s: string)
    requires WellGrouped(ps) && Flatten(ps) == s
    ensures Segment(s) == ps
    decreases |ps|, 1
  {
    if ps == [] {
    } else if ps[0].Group? {
      SegmentUniqueGroup(ps, s);
    } else {
      var tail := ps[1..];
      WellGroupedTail(ps);
      FlattenHead(ps);
      assert s[1..] == Flatten(tail);
      SegmentAtOther(s);
      SegmentUnique(tail, s[1..]);
    }
  }

  /** When a well-grouped cut opens with a group, the scan's first match is exactly that group. */
  lemma FirstMatchIs(ps: seq<Piece>, s: string)
    requires WellGrouped(ps) && Flatten(ps) == s && ps != [] && ps[0].Group?
    ensures var d := ps[0].digits;
      && 1 <= |d| <= |s| && s[0] == '9'
      && 1 + DigitRun(s[1..], MaxGroup - 1) == |d|
      && s[..|d|] == d && s[|d|..] == Flatten(ps[1..])
  {
    var tail := ps[1..];
    var d := ps[0].digits;
    WellGroupedTail(ps);
    FlattenHead(ps);
    var rest := Flatten(tail);
    SliceAppend(d, rest, |d|);
    assert d[..|d|] == d && d[|d|..] == [];
    var m := |d| - 1;
    var after := s[1..];
    assert forall k :: 0 <= k < m ==> after[k] == d[k + 1];
    if m < MaxGroup - 1 && m < |after| {
      assert |ps| > 1 by {
        assert |ps| == 1 ==> rest == "";
      }
      FlattenHead(tail);
      assert after[m] == rest[0] == tail[0].c;
    }
    DigitRunIs(after, MaxGroup - 1, m);
  }

  /** SegmentUnique where the cut opens with a group: the scan's first match is that group. */
  lemma {:induction false} SegmentUniqueGroup(ps: seq<Piece>, s: string)
    requires WellGrouped(ps) && Flatten(ps) == s && ps != [] && ps[0].Group?
    ensures Segment(s) == ps
    decreases |ps|, 0
  {
    var tail := ps[1..];
    var d := ps[0].digits;
    WellGroupedTail(ps);
    FirstMatchIs(ps, s);
    SegmentAtNine(s);
    SegmentUnique(tail, s[|d|..]);
    assert ps[0] == Group(d);
    ConsHead(ps);
  }

  // ---------------------------------------------------------------------
  // The mask a placeholder yields
  // ---------------------------------------------------------------------

  /** On text whose only digit is `9`, groups hold only `9`s and no digit is left outside a group. */
  lemma {:induction false} SegmentOfNines(s: string)
    requires OnlyNines(s)
    ensures forall p :: p in Segment(s) ==> p.Lit? ==> !IsDigit(p.c)
    ensures forall p :: p in Segment(s) ==> p.Group? ==> forall k :: 0 <= k < |p.digits| ==> p.digits[k] == '9'
    decreases |s|
  {
    if s == [] {
    } else if s[0] == '9' {
      var n := 1 + DigitRun(s[1..], MaxGroup - 1);
      SegmentAtNine(s);
      DigitRunSpec(s[1..], MaxGroup - 1);
      assert OnlyNines(s[n..]) by {
        assert forall i :: 0 <= i < |s[n..]| ==> s[n..][i] == s[n + i];
      }
      SegmentOfNines(s[n..]);
      assert forall k :: 0 < k < n ==> s[k] == s[1..][k - 1];
    } else {
      SegmentAtOther(s);
      assert OnlyNines(s[1..]) by {
        assert forall i :: 0 <= i < |s[1..]| ==> s[1..][i] == s[i + 1];
      }
      SegmentOfNines(s[1..]);
    }
  }

  /**
    The structure of a derived mask: its pieces are well grouped, they spell
    the digit-masked placeholder, every group is one to eleven `9`s, every
    character outside a group is a non-digit of the placeholder, and two
    groups meet only where the first holds eleven.
  */
  lemma DeriveStructure(placeholder: string)
    ensures var ps := Segment(MaskDigits(placeholder));
      && Derive(placeholder) == Render(ps)
      && Flatten(ps) == MaskDigits(placeholder)
      && WellGrouped(ps)
      && (forall p :: p in ps ==> p.Group? ==> 1 <= |p.digits| <= MaxGroup)
      && (forall p :: p in ps ==> p.Group? ==> forall k :: 0 <= k < |p.digits| ==> p.digits[k] == '9')
      && (forall p :: p in ps ==> p.Lit? ==> !IsDigit(p.c))
      && (forall i :: 0 <= i < |ps| - 1 ==> ps[i].Group? && ps[i + 1].Group? ==> |ps[i].digits| == MaxGroup)
  {
    var m := MaskDigits(placeholder);
    var ps := Segment(m);
    SegmentFlatten(m);
    SegmentWellGrouped(m);
    MaskDigitsOnlyNines(placeholder);
    SegmentOfNines(m);
    forall p | p in ps && p.Group?
      ensures 1 <= |p.digits| <= MaxGroup
    {
      var i :| 0 <= i < |ps| && ps[i] == p;
      assert PieceOk(ps[i]);
    }
    forall i | 0 <= i < |ps| - 1 && ps[i].Group? && ps[i + 1].Group?
      ensures |ps[i].digits| == MaxGroup
    {
      assert Boundary(ps[i], ps[i + 1]);
      assert PieceOk(ps[i]);
    }
  }

  /** To compute a mask it is enough to exhibit a well-grouped cut of the masked placeholder. */
  lemma DeriveBy(placeholder: string, ps: seq<Piece>)
    requires WellGrouped(ps) && Flatten(ps) == MaskDigits(placeholder)
    ensures Derive(placeholder) == Render(ps)
  {
    SegmentUnique(ps, MaskDigits(placeholder));
  }

  // ---------------------------------------------------------------------
  // Removing the braces gives the masked placeholder back
  // ---------------------------------------------------------------------

  predicate IsBrace(c: char) {
    c == '{' || c == '}'
  }

  predicate NoBraces(s: string) {
    forall i :: 0 <= i < |s| ==> !IsBrace(s[i])
  }

  /** Delete every `{` and `}`. */
  function StripBraces(s: string): (r: string)
    ensures NoBraces(r)
    ensures |r| <= |s|
  {
    if s == [] then ""
    else (if IsBrace(s[0]) then "" else [s[0]]) + StripBraces(s[1..])
  }

  lemma {:induction false} StripBracesAppend(a: string, b: string)
    ensures StripBraces(a + b) == StripBraces(a) + StripBraces(b)
    decreases |a|
  {
    if a == [] {
      assert a + b == b;
    } else {
      assert (a + b)[1..] == a[1..] + b;
      StripBracesAppend(a[1..], b);
    }
  }

  lemma StripBracesKeeps(s: string)
    requires NoBraces(s)
    ensures StripBraces(s) == s
    decreases |s|
  {
    if s != [] {
      assert NoBraces(s[1..]) by {
        assert forall i :: 0 <= i < |s[1..]| ==> s[1..][i] == s[i + 1];
      }
      StripBracesKeeps(s[1..]);
    }
  }

  lemma NoBracesSplit(a: string, b: string)
    requires NoBraces(a + b)
    ensures NoBraces(a) && NoBraces(b)
  {
    assert forall i :: 0 <= i < |a| ==> a[i] == (a + b)[i];
    assert forall i :: 0 <= i < |b| ==> b[i] == (a + b)[|a| + i];
  }

  /** Deleting the braces from a rendered piece leaves the text it was rendered from. */
  lemma StripPiece(p: Piece)
    requires NoBraces(PieceText(p))
    ensures StripBraces(RenderPiece(p)) == PieceText(p)
  {
    match p
    case Lit(c) =>
      StripBracesKeeps([c]);
    case Group(d) =>
      StripBracesOfBraces();
      StripBracesKeeps(d);
      StripBetween("{{", d, "}}");
  }

  lemma StripBracesOfBraces()
    ensures StripBraces("{{") == [] && StripBraces("}}") == []
  {
  }

  /** Text between two runs of braces is all that is left of it. */
  lemma StripBetween(x: string, d: string, y: string)
    requires StripBraces(x) == [] && StripBraces(y) == [] && StripBraces(d) == d
    ensures StripBraces(x + d + y) == d
  {
    StripBracesAppend(x + d, y);
    StripBracesAppend(x, d);
    assert [] + d == d && d + [] == d;
  }

  lemma {:induction false} StripRender(ps: seq<Piece>)
    requires NoBraces(Flatten(ps))
    ensures StripBraces(Render(ps)) == Flatten(ps)
    decreases |ps|
  {
    if ps != [] {
      NoBracesSplit(PieceText(ps[0]), Flatten(ps[1..]));
      StripRender(ps[1..]);
      StripBracesAppend(RenderPiece(ps[0]), Render(ps[1..]));
      StripPiece(ps[0]);
    }
  }

  /**
    Layout is preserved: for a placeholder without braces, deleting the
    braces from its mask gives the placeholder with every digit turned into
    `9`, every other character in its place.
  */
  lemma DeriveStripsToMask(placeholder: string)
    requires NoBraces(placeholder)
    ensures StripBraces(Derive(placeholder)) == MaskDigits(placeholder)
  {
    var m := MaskDigits(placeholder);
    assert NoBraces(m);
    SegmentFlatten(m);
    StripRender(Segment(m));
  }

  // ---------------------------------------------------------------------
  // A mask is computed run by run
  // ---------------------------------------------------------------------

  /** Where two texts meet, at least one side of the seam is not a digit. */
  predicate BreaksBetween(a: string, b: string) {
    a == [] || b == [] || !IsDigit(a[|a| - 1]) || !IsDigit(b[0])
  }

  lemma MaskDigitsAppend(a: string, b: string)
    ensures MaskDigits(a + b) == MaskDigits(a) + MaskDigits(b)
  {
  }

  lemma {:induction false} RenderAppend(ps: seq<Piece>, qs: seq<Piece>)
    ensures Render(ps + qs) == Render(ps) + Render(qs)
    decreases |ps|
  {
    if ps == [] {
      assert ps + qs == qs;
    } else {
      assert (ps + qs)[1..] == ps[1..] + qs;
      RenderAppend(ps[1..], qs);
    }
  }

  lemma SplitAt(s: string, n: nat)
    requires n <= |s|
    ensures s[..n] + s[n..] == s
  {
  }

  lemma SliceAppend(a: string, b: string, n: nat)
    requires n <= |a|
    ensures (a + b)[..n] == a[..n] && (a + b)[n..] == a[n..] + b
  {
  }

  lemma ConsAssoc(p: Piece, x: seq<Piece>, y: seq<Piece>)
    ensures [p] + (x + y) == ([p] + x) + y
  {
  }

  /** No match of `9\d{0,10}` runs across a seam that has a non-digit on one side. */
  lemma {:induction false} SegmentAppend(a: string, b: string)
    requires BreaksBetween(a, b)
    ensures Segment(a + b) == Segment(a) + Segment(b)
    decreases |a|, 1
  {
    if a == [] {
      assert a + b == b;
    } else if a[0] == '9' {
      SegmentAppendGroup(a, b);
    } else {
      var l := Lit(a[0]);
      SegmentAtOther(a + b);
      SegmentAtOther(a);
      SliceAppend(a, b, 1);
      SegmentAppend(a[1..], b);
      ConsAssoc(l, Segment(a[1..]), Segment(b));
    }
  }

  /** A match that starts in the first text stops before the seam, or exactly at it. */
  lemma RunStopsAtSeam(a: string, b: string)
    requires BreaksBetween(a, b) && a != [] && a[0] == '9'
    ensures DigitRun((a + b)[1..], MaxGroup - 1) == DigitRun(a[1..], MaxGroup - 1)
  {
    var m := DigitRun(a[1..], MaxGroup - 1);
    DigitRunSpec(a[1..], MaxGroup - 1);
    var ab := (a + b)[1..];
    assert ab == a[1..] + b;
    if m == |a| - 1 && b != [] {
      assert !IsDigit(b[0]) by {
        if |a| > 1 {
          assert a[|a| - 1] == a[1..][m - 1];
        }
      }
      assert ab[m] == b[0];
    } else if m < |a| - 1 {
      assert ab[m] == a[1..][m];
    }
    DigitRunIs(ab, MaxGroup - 1, m);
  }

  /** SegmentAppend where the first text opens with a match: the match ends inside it. */
  lemma {:induction false} SegmentAppendGroup(a: string, b: string)
    requires BreaksBetween(a, b) && a != [] && a[0] == '9'
    ensures Segment(a + b) == Segment(a) + Segment(b)
    decreases |a|, 0
  {
    RunStopsAtSeam(a, b);
    var n := 1 + DigitRun(a[1..], MaxGroup - 1);
    var g := Group(a[..n]);
    SegmentAtNine(a + b);
    SegmentAtNine(a);
    SliceAppend(a, b, n);
    SegmentAppend(a[n..], b);
    ConsAssoc(g, Segment(a[n..]), Segment(b));
  }

  /** The mask of a text that breaks between two parts is the two parts' masks side by side. */
  lemma DeriveAppend(a: string, b: string)
    requires BreaksBetween(a, b)
    ensures Derive(a + b) == Derive(a) + Derive(b)
  {
    MaskDigitsAppend(a, b);
    var ma, mb := MaskDigits(a), MaskDigits(b);
    assert BreaksBetween(ma, mb);
    SegmentAppend(ma, mb);
    RenderAppend(Segment(ma), Segment(mb));
  }

  predicate NoDigits(s: string) {
    forall i :: 0 <= i < |s| ==> !IsDigit(s[i])
  }

  /** Text without digits, such as the fixed placeholder, is its own mask. */
  lemma {:induction false} DeriveNoDigits(s: string)
    requires NoDigits(s)
    ensures Derive(s) == s
    decreases |s|
  {
    if s != [] {
      assert NoDigits(s[1..]) by {
        assert forall i :: 0 <= i < |s[1..]| ==> s[1..][i] == s[i + 1];
      }
      DeriveNoDigits(s[1..]);
      DeriveAppend([s[0]], s[1..]);
      assert [s[0]] + s[1..] == s;
      assert MaskDigits([s[0]]) == [s[0]];
      assert Segment([s[0]]) == [Lit(s[0])] + Segment([]);
    }
  }

  /** A whole text that is one possible match is scanned as that one match. */
  lemma SegmentOfGroup(d: string)
    requires IsGroup(d)
    ensures Segment(d) == [Group(d)]
  {
    assert forall k :: 0 <= k < |d| - 1 ==> d[1..][k] == d[k + 1];
    DigitRunIs(d[1..], MaxGroup - 1, |d| - 1);
    assert d[..|d|] == d && d[|d|..] == [];
  }

  lemma RenderOne(p: Piece)
    ensures Render([p]) == RenderPiece(p)
  {
    assert [p][1..] == [];
  }

  /** A run of one to eleven digits becomes a single group of as many `9`s. */
  lemma DeriveRun(s: string)
    requires 1 <= |s| <= MaxGroup && AllDigits(s)
    ensures Derive(s) == "{{" + MaskDigits(s) + "}}"
  {
    var m := MaskDigits(s);
    SegmentOfGroup(m);
    RenderOne(Group(m));
  }

  // ---------------------------------------------------------------------
  // Examples
  // ---------------------------------------------------------------------

  predicate AllDigits(s: string) {
    forall i :: 0 <= i < |s| ==> IsDigit(s[i])
  }

  /** Masking a run of digits gives as many `9`s. */
  lemma MaskRun(s: string, nines: string)
    requires AllDigits(s) && |nines| == |s|
    requires forall i :: 0 <= i < |nines| ==> nines[i] == '9'
    ensures MaskDigits(s) == nines
  {
  }

  /** The separators of the `(NXX) NXX-XXXX` layout pass through; each part is masked alone. */
  lemma DeriveUsLayout(area: string, exchange: string, line: string)
    ensures Derive("(" + area + ") " + exchange + "-" + line)
         == "(" + Derive(area) + ") " + Derive(exchange) + "-" + Derive(line)
  {
    DeriveNoDigits("(");
    DeriveNoDigits(") ");
    DeriveNoDigits("-");
    var x1 := "(" + area;
    DeriveAppend("(", area);
    var x2 := x1 + ") ";
    DeriveAppend(x1, ") ");
    var x3 := x2 + exchange;
    assert x2[|x2| - 1] == ' ';
    DeriveAppend(x2, exchange);
    var x4 := x3 + "-";
    DeriveAppend(x3, "-");
    assert x4[|x4| - 1] == '-';
    DeriveAppend(x4, line);
  }

  /**
    Every placeholder laid out as the United States numbers are, `(NXX) NXX-XXXX`,
    yields exactly the mask hard-coded for `us`.
  */
  lemma UsLayoutYieldsUsPattern(area: string, exchange: string, line: string)
    requires |area| == 3 && |exchange| == 3 && |line| == 4
    requires AllDigits(area) && AllDigits(exchange) && AllDigits(line)
    ensures Derive("(" + area + ") " + exchange + "-" + line) == UsPattern
  {
    DeriveRun(area);
    MaskRun(area, "999");
    DeriveRun(exchange);
    MaskRun(exchange, "999");
    DeriveRun(line);
    MaskRun(line, "9999");
    DeriveUsLayout(area, exchange, line);
    UsPatternParts();
  }

  /** The hard-coded `us` mask, cut where its groups begin and end. */
  lemma UsPatternParts()
    ensures "(" + ("{{" + "999" + "}}") + ") " + ("{{" + "999" + "}}") + "-" + ("{{" + "9999" + "}}") == UsPattern
  {
  }

  /** The United States example placeholder yields exactly the mask hard-coded for `us`. */
  lemma UsExampleYieldsUsPattern()
    ensures Derive(UsExample) == UsPattern
  {
    UsLayoutYieldsUsPattern("201", "555", "0123");
    UsExampleParts();
  }

  lemma UsExampleParts()
    ensures "(" + "201" + ") " + "555" + "-" + "0123" == UsExample
  {
  }

  /** The separators of a `XXX XXXX XXXX` layout pass through; each part is masked alone. */
  lemma DeriveSpacedLayout(a: string, b: string, c: string)
    ensures Derive(a + " " + b + " " + c) == Derive(a) + " " + Derive(b) + " " + Derive(c)
  {
    DeriveNoDigits(" ");
    var x1 := a + " ";
    DeriveAppend(a, " ");
    var x2 := x1 + b;
    assert x1[|x1| - 1] == ' ';
    DeriveAppend(x1, b);
    var x3 := x2 + " ";
    DeriveAppend(x2, " ");
    assert x3[|x3| - 1] == ' ';
    DeriveAppend(x3, c);
  }

  /** A British number written `XXX XXXX XXXX` gets one group per run of digits. */
  lemma BritishLayout(a: string, b: string, c: string)
    requires |a| == 3 && |b| == 4 && |c| == 4
    requires AllDigits(a) && AllDigits(b) && AllDigits(c)
    ensures Derive(a + " " + b + " " + c) == "{{999}} {{9999}} {{9999}}"
  {
    DeriveRun(a);
    MaskRun(a, "999");
    DeriveRun(b);
    MaskRun(b, "9999");
    DeriveRun(c);
    MaskRun(c, "9999");
    DeriveSpacedLayout(a, b, c);
    BritishPatternParts();
  }

  lemma BritishPatternParts()
    ensures ("{{" + "999" + "}}") + " " + ("{{" + "9999" + "}}") + " " + ("{{" + "9999" + "}}")
         == "{{999}} {{9999}} {{9999}}"
  {
  }

  lemma BritishExampleParts()
    ensures "020" + " " + "7946" + " " + "0958" == "020 7946 0958"
  {
  }

  /** The London example number in national format. */
  lemma BritishExample()
    ensures Derive("020 7946 0958") == "{{999}} {{9999}} {{9999}}"
  {
    BritishLayout("020", "7946", "0958");
    BritishExampleParts();
  }

  predicate AllNines(s: string) {
    forall i :: 0 <= i < |s| ==> s[i] == '9'
  }

  lemma NinesAreGroup(d: string)
    requires 1 <= |d| <= MaxGroup && AllNines(d)
    ensures IsGroup(d)
  {
  }

  /** A run of twelve to twenty-two `9`s is scanned as a match of eleven and a match of the rest. */
  lemma SegmentLongRun(m: string)
    requires AllNines(m) && MaxGroup < |m| <= 2 * MaxGroup
    ensures Segment(m) == [Group(m[..MaxGroup]), Group(m[MaxGroup..])]
  {
    var first, second := m[..MaxGroup], m[MaxGroup..];
    assert AllNines(first) && AllNines(second);
    NinesAreGroup(first);
    NinesAreGroup(second);
    var ps := [Group(first), Group(second)];
    WellGroupedCons(Group(second), []);
    WellGroupedCons(Group(first), [Group(second)]);
    assert [Group(first)] + [Group(second)] == ps;
    assert [Group(second)] + [] == [Group(second)];
    assert Flatten(ps) == m by {
      assert ps[1..] == [Group(second)];
      assert Flatten([Group(second)]) == second + Flatten([]);
      assert first + second == m;
    }
    SegmentUnique(ps, m);
  }

  /** A run of twelve to twenty-two digits is cut into a group of eleven and a group of the rest. */
  lemma LongRunSplits(s: string)
    requires AllDigits(s) && MaxGroup < |s| <= 2 * MaxGroup
    ensures var m := MaskDigits(s);
      Derive(s) == ("{{" + m[..MaxGroup] + "}}") + ("{{" + m[MaxGroup..] + "}}")
  {
    var m := MaskDigits(s);
    assert AllNines(m);
    SegmentLongRun(m);
    var ps := [Group(m[..MaxGroup]), Group(m[MaxGroup..])];
    assert ps[1..] == [Group(m[MaxGroup..])];
    RenderOne(Group(m[MaxGroup..]));
  }

  /**
    The start-up fallback is not what derivation gives for a placeholder of
    22 digits: derivation never writes a group longer than eleven.
  */
  lemma FallbackIsNotDerived(s: string)
    requires AllDigits(s) && |s| == 22
    ensures Derive(s) != FallbackPattern
  {
    LongRunSplits(s);
    var m := MaskDigits(s);
    assert Derive(s)[13] == '}';
    assert FallbackPattern[13] == '9';
  }
}
