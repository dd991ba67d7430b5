/** The file name patterns of a directory search: `?` for one character, `*` for any number of them. */
module PatternMatch {

  /** Characters are code points; 0 is what follows the last one. Case folding is left open. */
  type Text = s: seq<nat> | forall i :: 0 <= i < |s| ==> s[i] != 0

  const ANY: nat := '*' as int
  const ONE: nat := '?' as int
  const STAR_FLAG: nat := 0x100
  const LETTER: nat := 'A' as int

  predicate Wild(c: nat) { c == ANY || c == ONE }

  ghost predicate IsFold(fold: nat -> nat) {
    forall c :: fold(c) == 0 <==> c == 0
  }

  function At(s: seq<nat>, i: nat): nat {
    if i < |s| then s[i] else 0
  }

  // ----- the meaning of a pattern, one character at a time

  predicate Reaches(n: nat, k: nat) { n <= k }

  ghost predicate Matches(fold: nat -> nat, pat: Text, p: nat, nam: Text, n: nat)
    requires p <= |pat| && n <= |nam|
    decreases |pat| - p
  {
    if p == |pat| then n == |nam|
    else if pat[p] == '*' as int then exists k: nat :: k <= |nam| && Reaches(n, k) && Matches(fold, pat, p + 1, nam, k)
    else n < |nam| && (pat[p] == '?' as int || fold(pat[p]) == fold(nam[n])) && Matches(fold, pat, p + 1, nam, n + 1)
  }

  // ----- the meaning of a pattern, a group of wildcards at a time

  /** Where the group of wildcards at p ends. */
  function GroupEnd(pat: seq<nat>, p: nat): (r: nat)
    requires p <= |pat|
    ensures p <= r <= |pat|
    ensures forall i :: p <= i < r ==> Wild(pat[i])
    ensures r < |pat| ==> !Wild(pat[r])
    decreases |pat| - p
  {
    if p < |pat| && Wild(pat[p]) then GroupEnd(pat, p + 1) else p
  }

  /** The number of characters a group skips; from the flag on, at least as many. */
  function Skip(pat: seq<nat>, p: nat, q: nat): nat
    requires p <= q <= |pat|
    decreases q
  {
    if p == q then 0
    else
      var s := Skip(pat, p, q - 1);
      if pat[q - 1] == ONE then s + 1 else if s / STAR_FLAG % 2 == 1 then s else s + STAR_FLAG
  }

  /** Where matching may go on after a skip from n. */
  predicate Lands(skip: nat, n: nat, k: nat) {
    n + skip % STAR_FLAG <= k && (skip < STAR_FLAG ==> k == n + skip)
  }

  ghost predicate Glob(fold: nat -> nat, pat: Text, p: nat, nam: Text, n: nat)
    requires p <= |pat| && n <= |nam|
    decreases |pat| - p
  {
    if p == |pat| then n == |nam|
    else if Wild(pat[p]) then
      var q := GroupEnd(pat, p);
      exists k: nat :: k <= |nam| && Lands(Skip(pat, p, q), n, k) && Glob(fold, pat, q, nam, k)
    else n < |nam| && fold(pat[p]) == fold(nam[n]) && Glob(fold, pat, p + 1, nam, n + 1)
  }

  /** The pattern from p on matches the name from some place after the skip. */
  ghost predicate GlobAfter(fold: nat -> nat, pat: Text, p: nat, nam: Text, n: nat, skip: nat)
    requires p <= |pat| && n <= |nam|
  {
    exists k: nat :: k <= |nam| && Lands(skip, n, k) && Glob(fold, pat, p, nam, k)
  }

  /** The number of groups of wildcards. */
  function Groups(pat: seq<nat>, p: nat): nat
    requires p <= |pat|
    decreases |pat| - p
  {
    if p == |pat| then 0
    else if Wild(pat[p]) then 1 + Groups(pat, GroupEnd(pat, p))
    else Groups(pat, p + 1)
  }

  // ----- the matcher

  /** A pattern that begins with m literals matches nothing shorter. */
  lemma {:induction false} LiteralsNeedRoom(fold: nat -> nat, pat: Text, p: nat, q: nat, nam: Text, n: nat)
    requires p <= q <= |pat| && n <= |nam| && q - p > |nam| - n
    requires forall i :: p <= i < q ==> !Wild(pat[i])
    ensures !Glob(fold, pat, p, nam, n)
    decreases q - p
  {
    if n < |nam| { LiteralsNeedRoom(fold, pat, p + 1, q, nam, n + 1); }
  }

  /** `pattern_match`: it finds a match exactly when there is one and the wildcard groups are no more than the
      recursion allows. */
  method Match(fold: nat -> nat, pat: Text, p: nat, nam: Text, n: nat, skip: nat, recur: nat) returns (m: bool)
    requires IsFold(fold) && p <= |pat| && n <= |nam|
    ensures m <==> Groups(pat, p) <= recur && GlobAfter(fold, pat, p, nam, n, skip)
    decreases |pat| - p, 1
  {
    var sk, start := skip, n;
    while sk % STAR_FLAG != 0
      invariant n <= start <= |nam| && sk >= 0
      invariant sk / STAR_FLAG == skip / STAR_FLAG && start - n == skip - sk
    {
      if fold(At(nam, start)) == 0 { return false; }
      start := start + 1;
      sk := sk - 1;
    }
    if p == |pat| && sk != 0 {
      assert Lands(skip, n, |nam|);
      return true;
    }
    ghost var first := start;
    var again := true;
    while again
      invariant first <= start && (again ==> start <= |nam|)
      invariant again && start > first ==> sk != 0
      invariant forall k :: first <= k < start && k <= |nam| ==> !Glob(fold, pat, p, nam, k) || Groups(pat, p) > recur
      invariant !again && sk != 0 ==>
                  forall k :: first <= k <= |nam| ==> !Glob(fold, pat, p, nam, k) || Groups(pat, p) > recur
      invariant !again ==> start > first
      decreases |nam| + 1 - start, again
    {
      var hit, nchr := Branch(fold, pat, p, nam, start, recur);
      if hit { assert Lands(skip, n, start); return true; }
      start := start + 1;
      again := sk != 0 && nchr != 0;
    }
    return false;
  }

  /** One try from one place of the name; nchr is 0 only if no later place can do better. */
  method Branch(fold: nat -> nat, pat: Text, p: nat, nam: Text, start: nat, recur: nat) returns (hit: bool, nchr: nat)
    requires IsFold(fold) && p <= |pat| && start <= |nam|
    ensures hit <==> Groups(pat, p) <= recur && Glob(fold, pat, p, nam, start)
    ensures !hit && nchr != 0 ==> start < |nam|
    ensures !hit && nchr == 0 ==>
              forall k :: start < k <= |nam| ==> !Glob(fold, pat, p, nam, k) || Groups(pat, p) > recur
    decreases |pat| - p, 0
  {
    var pp, np := p, start;
    while true
      invariant p <= pp <= |pat| && start <= np <= |nam| && pp - p == np - start
      invariant forall i :: p <= i < pp ==> !Wild(pat[i])
      invariant Glob(fold, pat, p, nam, start) == Glob(fold, pat, pp, nam, np)
      invariant Groups(pat, p) == Groups(pat, pp)
      decreases |pat| - pp
    {
      if pp < |pat| && Wild(pat[pp]) {
        if recur == 0 { return false, 0; }
        ghost var q := GroupEnd(pat, pp);
        var sk, at := 0, pp;
        while at == pp || (at < |pat| && Wild(pat[at]))
          invariant pp <= at <= q && sk == Skip(pat, pp, at)
          decreases q - at
        {
          sk := if pat[at] == ONE then sk + 1 else if sk / STAR_FLAG % 2 == 1 then sk else sk + STAR_FLAG;
          at := at + 1;
        }
        hit := Match(fold, pat, at, nam, np, sk, recur - 1);
        nchr := At(nam, np);
        forall k | start < k <= |nam| && np == |nam|
          ensures !Glob(fold, pat, p, nam, k)
        {
          LiteralsNeedRoom(fold, pat, p, pp, nam, k);
        }
        return;
      }
      var pchr := fold(At(pat, pp));
      nchr := fold(At(nam, np));
      if pchr != nchr {
        forall k | start < k <= |nam| && np == |nam|
          ensures !Glob(fold, pat, p, nam, k)
        {
          LiteralsNeedRoom(fold, pat, p, pp + 1, nam, k);
        }
        return false, nchr;
      }
      if pchr == 0 { return true, 0; }
      pp, np := pp + 1, np + 1;
    }
  }

  // ----- both meanings agree while the counter of a group does not run into its flag

  /** The number of `?` between p and q. */
  function Marks(pat: seq<nat>, p: nat, q: nat): nat
    requires p <= q <= |pat|
    decreases q
  {
    if p == q then 0 else Marks(pat, p, q - 1) + if pat[q - 1] == ONE then 1 else 0
  }

  /** Every group from p on has fewer than 256 of them. */
  predicate FewMarks(pat: seq<nat>, p: nat)
    requires p <= |pat|
    decreases |pat| - p
  {
    if p == |pat| then true
    else if Wild(pat[p]) then
      var q := GroupEnd(pat, p);
      Marks(pat, p, q) < 0x100 && FewMarks(pat, q)
    else FewMarks(pat, p + 1)
  }

  lemma {:induction false} MarksGrow(pat: seq<nat>, p: nat, r: nat, q: nat)
    requires p <= r <= q <= |pat|
    ensures Marks(pat, p, r) <= Marks(pat, p, q)
    decreases q
  {
    if r < q { MarksGrow(pat, p, r, q - 1); }
  }

  lemma {:induction false} SkipCounts(pat: seq<nat>, p: nat, r: nat)
    requires p <= r <= |pat| && Marks(pat, p, r) < STAR_FLAG
    ensures Skip(pat, p, r) == Marks(pat, p, r) || Skip(pat, p, r) == Marks(pat, p, r) + STAR_FLAG
    decreases r
  {
    if p < r {
      MarksGrow(pat, p, r - 1, r);
      SkipCounts(pat, p, r - 1);
    }
  }

  /** The characters a part of a group stands for. */
  ghost predicate MatchesAfter(fold: nat -> nat, pat: Text, p: nat, r: nat, nam: Text, n: nat)
    requires p <= r <= |pat| && n <= |nam|
  {
    exists k: nat :: k <= |nam| && Lands(Skip(pat, p, r), n, k) && Matches(fold, pat, r, nam, k)
  }

  /** One more character of the group moves every landing place by one, or opens all later ones. */
  lemma LandsStep(pat: seq<nat>, p: nat, r: nat, n: nat, k: nat, k': nat)
    requires p <= r < |pat| && Wild(pat[r]) && Marks(pat, p, r + 1) < STAR_FLAG
    ensures var s, s' := Skip(pat, p, r), Skip(pat, p, r + 1);
            if pat[r] == ONE then Lands(s', n, k + 1) <==> Lands(s, n, k)
            else && (Lands(s, n, k) && k <= k' ==> Lands(s', n, k'))
                 && (Lands(s', n, k') ==> var l := if s < STAR_FLAG then n + s else k'; l <= k' && Lands(s, n, l))
  {
    hide Lands;
    MarksGrow(pat, p, r, r + 1);
    SkipCounts(pat, p, r);
    var m, s := Marks(pat, p, r), Skip(pat, p, r);
    if pat[r] == ONE { LandsOne(s, m, n, k); } else { LandsStar(s, m, n, k, k'); }
  }

  lemma LandsOne(s: nat, m: nat, n: nat, k: nat)
    requires m + 1 < STAR_FLAG && (s == m || s == m + STAR_FLAG)
    ensures Lands(s + 1, n, k + 1) <==> Lands(s, n, k)
  {
  }

  lemma LandsStar(s: nat, m: nat, n: nat, k: nat, k': nat)
    requires m < STAR_FLAG && (s == m || s == m + STAR_FLAG)
    ensures s / STAR_FLAG % 2 == if s == m then 0 else 1
    ensures Lands(s, n, k) && k <= k' ==> Lands(m + STAR_FLAG, n, k')
    ensures Lands(m + STAR_FLAG, n, k') ==> var l := if s < STAR_FLAG then n + s else k'; l <= k' && Lands(s, n, l)
  {
  }

  lemma GroupStep(fold: nat -> nat, pat: Text, p: nat, r: nat, nam: Text, n: nat)
    requires p <= r < |pat| && n <= |nam| && Wild(pat[r]) && Marks(pat, p, r + 1) < STAR_FLAG
    ensures MatchesAfter(fold, pat, p, r, nam, n) <==> MatchesAfter(fold, pat, p, r + 1, nam, n)
  {
    hide Lands, Skip;
    var s, s' := Skip(pat, p, r), Skip(pat, p, r + 1);
    if MatchesAfter(fold, pat, p, r, nam, n) {
      var k: nat :| k <= |nam| && Lands(s, n, k) && Matches(fold, pat, r, nam, k);
      var k': nat := k + 1;
      if pat[r] == ANY {
        k' :| 0 <= k' <= |nam| && Reaches(k, k') && Matches(fold, pat, r + 1, nam, k');
      }
      LandsStep(pat, p, r, n, k, k');
    }
    if MatchesAfter(fold, pat, p, r + 1, nam, n) {
      var k': nat :| k' <= |nam| && Lands(s', n, k') && Matches(fold, pat, r + 1, nam, k');
      if pat[r] == ANY {
        LandsStep(pat, p, r, n, 0, k');
        assert Reaches(if s < STAR_FLAG then n + s else k', k');
      } else {
        OneBack(pat, p, r, n, k');
      }
    }
  }

  lemma OneBack(pat: seq<nat>, p: nat, r: nat, n: nat, k': nat)
    requires p <= r < |pat| && pat[r] == ONE && Marks(pat, p, r + 1) < STAR_FLAG
    requires Lands(Skip(pat, p, r + 1), n, k')
    ensures k' > 0 && Lands(Skip(pat, p, r), n, k' - 1)
  {
    MarksGrow(pat, p, r, r + 1);
    SkipCounts(pat, p, r);
    LandsOne(Skip(pat, p, r), Marks(pat, p, r), n, if k' == 0 then 0 else k' - 1);
  }

  lemma {:induction false} GroupMeans(fold: nat -> nat, pat: Text, p: nat, r: nat, nam: Text, n: nat)
    requires p <= r <= |pat| && n <= |nam| && Marks(pat, p, r) < STAR_FLAG
    requires forall i :: p <= i < r ==> Wild(pat[i])
    ensures Matches(fold, pat, p, nam, n) <==> MatchesAfter(fold, pat, p, r, nam, n)
    decreases r
  {
    if p == r {
      assert Matches(fold, pat, p, nam, n) ==> Lands(0, n, n);
    } else {
      MarksGrow(pat, p, r - 1, r);
      GroupMeans(fold, pat, p, r - 1, nam, n);
      GroupStep(fold, pat, p, r - 1, nam, n);
    }
  }

  /** Reading a group of wildcards as one number gives the meaning of its characters. */
  lemma {:induction false} GlobIsMatches(fold: nat -> nat, pat: Text, p: nat, nam: Text, n: nat)
    requires p <= |pat| && n <= |nam| && FewMarks(pat, p)
    ensures Glob(fold, pat, p, nam, n) <==> Matches(fold, pat, p, nam, n)
    decreases |pat| - p
  {
    if p < |pat| {
      if Wild(pat[p]) {
        var q := GroupEnd(pat, p);
        GroupMeans(fold, pat, p, q, nam, n);
        forall k: nat | k <= |nam|
          ensures Glob(fold, pat, q, nam, k) <==> Matches(fold, pat, q, nam, k)
        {
          GlobIsMatches(fold, pat, q, nam, k);
        }
      } else if n < |nam| {
        GlobIsMatches(fold, pat, p + 1, nam, n + 1);
      }
    }
  }

  // ----- where the two meanings part

  /** The number of characters of a pattern that stand for one character each. */
  function Least(pat: seq<nat>, p: nat): nat
    requires p <= |pat|
    decreases |pat| - p
  {
    if p == |pat| then 0 else (if pat[p] == ANY then 0 else 1) + Least(pat, p + 1)
  }

  lemma {:induction false} MatchesNeedRoom(fold: nat -> nat, pat: Text, p: nat, nam: Text, n: nat)
    requires p <= |pat| && n <= |nam| && Matches(fold, pat, p, nam, n)
    ensures |nam| - n >= Least(pat, p)
    decreases |pat| - p
  {
    if p < |pat| {
      if pat[p] == ANY {
        var k: nat :| k <= |nam| && Reaches(n, k) && Matches(fold, pat, p + 1, nam, k);
        MatchesNeedRoom(fold, pat, p + 1, nam, k);
      } else {
        MatchesNeedRoom(fold, pat, p + 1, nam, n + 1);
      }
    }
  }

  lemma {:induction false} LeastOfGroup(pat: seq<nat>, p: nat, q: nat)
    requires p <= q <= |pat| && forall i :: p <= i < q ==> Wild(pat[i])
    ensures Least(pat, p) == Marks(pat, p, q) + Least(pat, q)
    decreases q - p
  {
    if p < q {
      LeastOfGroup(pat, p + 1, q);
      MarksFromFront(pat, p, q);
    }
  }

  lemma {:induction false} MarksFromFront(pat: seq<nat>, p: nat, q: nat)
    requires p < q <= |pat|
    ensures Marks(pat, p, q) == (if pat[p] == ONE then 1 else 0) + Marks(pat, p + 1, q)
    decreases q
  {
    if p + 1 < q { MarksFromFront(pat, p, q - 1); }
  }

  /** Whatever the number of `?`, the counter of a group is that number below the flag. */
  lemma {:induction false} SkipCutsOff(pat: seq<nat>, p: nat, q: nat)
    requires p <= q <= |pat|
    ensures Skip(pat, p, q) % STAR_FLAG == Marks(pat, p, q) % STAR_FLAG
    decreases q
  {
    if p < q {
      SkipCutsOff(pat, p, q - 1);
      CutOffNext(Skip(pat, p, q - 1), Marks(pat, p, q - 1));
    }
  }

  lemma CutOffNext(s: nat, m: nat)
    requires s % STAR_FLAG == m % STAR_FLAG
    ensures (s + 1) % STAR_FLAG == (m + 1) % STAR_FLAG && (s + STAR_FLAG) % STAR_FLAG == m % STAR_FLAG
  {
    CutOff(s);
    CutOff(m);
  }

  lemma CutOff(s: nat)
    ensures (s + 1) % 0x100 == if s % 0x100 == 0xFF then 0 else s % 0x100 + 1
    ensures (s + 0x100) % 0x100 == s % 0x100
  {
  }

  /** The shortest name the matcher accepts: literals as they are, and for a group what its counter skips. */
  function Short(pat: Text, p: nat): (nam: Text)
    requires p <= |pat|
    decreases |pat| - p
  {
    if p == |pat| then []
    else if Wild(pat[p]) then
      var q := GroupEnd(pat, p);
      Copies(Skip(pat, p, q) % STAR_FLAG) + Short(pat, q)
    else [pat[p]] + Short(pat, p + 1)
  }

  function Copies(n: nat): (r: Text)
    ensures |r| == n
  {
    seq(n, _ => LETTER)
  }

  lemma {:induction false} GlobShort(fold: nat -> nat, pat: Text, p: nat, before: Text)
    requires p <= |pat|
    ensures Glob(fold, pat, p, before + Short(pat, p), |before|)
    decreases |pat| - p
  {
    var nam := before + Short(pat, p);
    if p < |pat| {
      if Wild(pat[p]) {
        var q := GroupEnd(pat, p);
        var more := Copies(Skip(pat, p, q) % STAR_FLAG);
        assert nam == (before + more) + Short(pat, q);
        GlobShort(fold, pat, q, before + more);
        assert Lands(Skip(pat, p, q), |before|, |before + more|);
      } else {
        assert nam == (before + [pat[p]]) + Short(pat, p + 1);
        GlobShort(fold, pat, p + 1, before + [pat[p]]);
      }
    }
  }

  /** It is shorter than the characters of the pattern demand exactly if some group has 256 or more `?`. */
  lemma {:induction false} ShortIsTooShort(pat: Text, p: nat)
    requires p <= |pat|
    ensures |Short(pat, p)| <= Least(pat, p)
    ensures |Short(pat, p)| < Least(pat, p) <==> !FewMarks(pat, p)
    decreases |pat| - p
  {
    if p < |pat| {
      if Wild(pat[p]) {
        var q := GroupEnd(pat, p);
        LeastOfGroup(pat, p, q);
        SkipCutsOff(pat, p, q);
        ShortIsTooShort(pat, q);
      } else {
        ShortIsTooShort(pat, p + 1);
      }
    }
  }

  /** Reading groups as numbers means the same for every name exactly if no group has 256 or more `?`. */
  lemma GlobIffMatches(fold: nat -> nat, pat: Text)
    ensures FewMarks(pat, 0) <==> forall nam: Text :: Glob(fold, pat, 0, nam, 0) <==> Matches(fold, pat, 0, nam, 0)
  {
    if FewMarks(pat, 0) {
      forall nam: Text
        ensures Glob(fold, pat, 0, nam, 0) <==> Matches(fold, pat, 0, nam, 0)
      {
        GlobIsMatches(fold, pat, 0, nam, 0);
      }
    } else {
      ShortDiffers(fold, pat);
    }
  }

  lemma ShortDiffers(fold: nat -> nat, pat: Text)
    requires !FewMarks(pat, 0)
    ensures Glob(fold, pat, 0, Short(pat, 0), 0) && !Matches(fold, pat, 0, Short(pat, 0), 0)
  {
    var nam := Short(pat, 0);
    GlobShort(fold, pat, 0, []);
    assert [] + nam == nam;
    ShortIsTooShort(pat, 0);
    if Matches(fold, pat, 0, nam, 0) { MatchesNeedRoom(fold, pat, 0, nam, 0); }
  }

  lemma {:induction false} MarksOnly(pat: seq<nat>, p: nat)
    requires p <= |pat| && forall i :: 0 <= i < |pat| ==> pat[i] == ONE
    ensures GroupEnd(pat, p) == |pat|
    decreases |pat| - p
  {
    if p < |pat| { MarksOnly(pat, p + 1); }
  }

  lemma {:induction false} MarksSkip(pat: seq<nat>, q: nat)
    requires q <= |pat| && forall i :: 0 <= i < |pat| ==> pat[i] == ONE
    ensures Skip(pat, 0, q) == q
    decreases q
  {
    if q > 0 { MarksSkip(pat, q - 1); }
  }

  // ----- a directory search

  const FIND_RECURS: nat := 4

  /** What a search takes for a match. */
  ghost predicate Accepts(fold: nat -> nat, pat: Text, nam: Text) {
    Groups(pat, 0) <= FIND_RECURS && Glob(fold, pat, 0, nam, 0)
  }

  /** The call a directory search makes: for every pattern and name, and by the meaning of `?` and `*` while
      the groups are few and small. */
  method MatchName(fold: nat -> nat, pat: Text, nam: Text) returns (m: bool)
    requires IsFold(fold)
    ensures m <==> Accepts(fold, pat, nam)
    ensures Groups(pat, 0) <= 4 && FewMarks(pat, 0) ==> (m <==> Matches(fold, pat, 0, nam, 0))
  {
    assert Lands(0, 0, 0);
    if FewMarks(pat, 0) { GlobIsMatches(fold, pat, 0, nam, 0); }
    m := Match(fold, pat, 0, nam, 0, 0, FIND_RECURS);
  }

  /** The name that has one character where the pattern has `?`, none where it has `*`, and its literals. */
  function Plainest(pat: Text, p: nat): (nam: Text)
    requires p <= |pat|
    decreases |pat| - p
  {
    if p == |pat| then []
    else if pat[p] == ANY then Plainest(pat, p + 1)
    else [if pat[p] == ONE then LETTER else pat[p]] + Plainest(pat, p + 1)
  }

  lemma {:induction false} PlainestMatches(fold: nat -> nat, pat: Text, p: nat, before: Text)
    requires p <= |pat|
    ensures Matches(fold, pat, p, before + Plainest(pat, p), |before|)
    decreases |pat| - p
  {
    var nam := before + Plainest(pat, p);
    if p < |pat| {
      if pat[p] == ANY {
        PlainestMatches(fold, pat, p + 1, before);
        assert Reaches(|before|, |before|);
      } else {
        var c := if pat[p] == ONE then LETTER else pat[p];
        assert nam == (before + [c]) + Plainest(pat, p + 1);
        PlainestMatches(fold, pat, p + 1, before + [c]);
      }
    }
  }

  // ----- which patterns a search is right about

  /** The names a search meets: it stops at an empty one, and none has more than 255 characters. */
  predicate Searched(nam: Text) { 1 <= |nam| <= 255 }

  ghost predicate RightAbout(fold: nat -> nat, pat: Text, nam: Text) {
    Accepts(fold, pat, nam) <==> Matches(fold, pat, 0, nam, 0)
  }

  lemma {:induction false} PlainestSize(pat: Text, p: nat)
    requires p <= |pat|
    ensures |Plainest(pat, p)| == Least(pat, p)
    decreases |pat| - p
  {
    if p < |pat| { PlainestSize(pat, p + 1); }
  }

  /** What the matcher accepts is never shorter than its shortest name. */
  lemma {:induction false} GlobNeedsRoom(fold: nat -> nat, pat: Text, p: nat, nam: Text, n: nat)
    requires p <= |pat| && n <= |nam| && Glob(fold, pat, p, nam, n)
    ensures |nam| - n >= |Short(pat, p)|
    decreases |pat| - p
  {
    if p < |pat| {
      if Wild(pat[p]) {
        var q := GroupEnd(pat, p);
        var k: nat :| k <= |nam| && Lands(Skip(pat, p, q), n, k) && Glob(fold, pat, q, nam, k);
        GlobNeedsRoom(fold, pat, q, nam, k);
      } else {
        GlobNeedsRoom(fold, pat, p + 1, nam, n + 1);
      }
    }
  }

  /** Between two groups there is a literal. */
  lemma {:induction false} GroupsNeedLiterals(pat: seq<nat>, p: nat)
    requires p <= |pat|
    ensures Groups(pat, p) <= Least(pat, p) + 1
    decreases |pat| - p
  {
    if p < |pat| {
      if Wild(pat[p]) {
        var q := GroupEnd(pat, p);
        LeastOfGroup(pat, p, q);
        if q < |pat| { GroupsNeedLiterals(pat, q + 1); }
      } else {
        GroupsNeedLiterals(pat, p + 1);
      }
    }
  }

  lemma {:induction false} SkipCoversMarks(pat: seq<nat>, p: nat, q: nat)
    requires p <= q <= |pat|
    ensures Skip(pat, p, q) >= Marks(pat, p, q)
    decreases q
  {
    if p < q { SkipCoversMarks(pat, p, q - 1); }
  }

  /** If the shortest name is empty although a group is too large, the pattern is one group that lands anywhere. */
  lemma EmptyShort(fold: nat -> nat, pat: Text, nam: Text)
    requires !FewMarks(pat, 0) && Short(pat, 0) == []
    ensures Groups(pat, 0) <= FIND_RECURS && Glob(fold, pat, 0, nam, 0)
  {
    var q := GroupEnd(pat, 0);
    assert q == |pat|;
    SkipCoversMarks(pat, 0, q);
    LandsAnywhere(Skip(pat, 0, q), |nam|);
    assert Glob(fold, pat, q, nam, |nam|);
  }

  lemma LandsAnywhere(skip: nat, k: nat)
    requires skip >= STAR_FLAG && |Copies(skip % STAR_FLAG)| == 0
    ensures Lands(skip, 0, k)
  {
  }

  /** A pattern with a group of 256 or more `?` means no name that a search meets. */
  lemma TooManyToMatch(fold: nat -> nat, pat: Text, nam: Text)
    requires !FewMarks(pat, 0) && Searched(nam)
    ensures !Matches(fold, pat, 0, nam, 0)
  {
    MarksNeedRoom(pat, 0);
    if Matches(fold, pat, 0, nam, 0) { MatchesNeedRoom(fold, pat, 0, nam, 0); }
  }

  lemma {:induction false} MarksNeedRoom(pat: seq<nat>, p: nat)
    requires p <= |pat| && !FewMarks(pat, p)
    ensures Least(pat, p) >= STAR_FLAG
    decreases |pat| - p
  {
    if Wild(pat[p]) {
      var q := GroupEnd(pat, p);
      LeastOfGroup(pat, p, q);
      if Marks(pat, p, q) < STAR_FLAG { MarksNeedRoom(pat, q); }
    } else {
      MarksNeedRoom(pat, p + 1);
    }
  }

  /** For example, 256 `?` count as `*`: a search takes every name for a match, and none is one. */
  lemma ManyMarks(fold: nat -> nat, pat: Text, nam: Text)
    requires pat == seq(0x100, _ => '?' as int) && Searched(nam)
    ensures Accepts(fold, pat, nam) && !Matches(fold, pat, 0, nam, 0)
  {
    MarksOnly(pat, 0);
    MarksSkip(pat, STAR_FLAG);
    assert Lands(Skip(pat, 0, |pat|), 0, |nam|);
    LeastOfGroup(pat, 0, |pat|);
    MarksAll(pat, STAR_FLAG);
    if Matches(fold, pat, 0, nam, 0) { MatchesNeedRoom(fold, pat, 0, nam, 0); }
  }

  lemma {:induction false} MarksAll(pat: seq<nat>, q: nat)
    requires q <= |pat| && forall i :: 0 <= i < |pat| ==> pat[i] == ONE
    ensures Marks(pat, 0, q) == q
    decreases q
  {
    if q > 0 { MarksAll(pat, q - 1); }
  }

  /** The patterns a search is right about, for the names it meets. With at most four groups: each group has fewer
      than 256 `?`, or even the shortest name it would accept is too long. With more, when it accepts nothing: the
      pattern asks for too long a name anyway. */
  predicate Sound(pat: Text) {
    if Groups(pat, 0) <= 4 then FewMarks(pat, 0) || |Short(pat, 0)| > 255 else Least(pat, 0) > 255
  }

  lemma SearchIsRight(fold: nat -> nat, pat: Text)
    ensures Sound(pat) <==> forall nam: Text :: Searched(nam) ==> RightAbout(fold, pat, nam)
  {
    if Sound(pat) {
      forall nam: Text | Searched(nam)
        ensures RightAbout(fold, pat, nam)
      {
        SoundIsRight(fold, pat, nam);
      }
    } else {
      var nam := Mistaken(fold, pat);
    }
  }

  lemma SoundIsRight(fold: nat -> nat, pat: Text, nam: Text)
    requires Sound(pat) && Searched(nam)
    ensures RightAbout(fold, pat, nam)
  {
    if Groups(pat, 0) > FIND_RECURS {
      if Matches(fold, pat, 0, nam, 0) { MatchesNeedRoom(fold, pat, 0, nam, 0); }
    } else if FewMarks(pat, 0) {
      GlobIsMatches(fold, pat, 0, nam, 0);
    } else {
      TooManyToMatch(fold, pat, nam);
      if Glob(fold, pat, 0, nam, 0) { GlobNeedsRoom(fold, pat, 0, nam, 0); }
    }
  }

  /** A name the search is wrong about. */
  lemma Mistaken(fold: nat -> nat, pat: Text) returns (nam: Text)
    requires !Sound(pat)
    ensures Searched(nam) && !RightAbout(fold, pat, nam)
  {
    if Groups(pat, 0) > FIND_RECURS {
      nam := Plainest(pat, 0);
      PlainestMatches(fold, pat, 0, []);
      assert [] + nam == nam;
      PlainestSize(pat, 0);
      GroupsNeedLiterals(pat, 0);
    } else if Short(pat, 0) == [] {
      nam := [LETTER];
      EmptyShort(fold, pat, nam);
      TooManyToMatch(fold, pat, nam);
    } else {
      nam := Short(pat, 0);
      ShortDiffers(fold, pat);
    }
  }
}
