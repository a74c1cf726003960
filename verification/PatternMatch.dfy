/**
 The wildcard matcher behind directory searches, on byte strings in UTF-8: what it computes, and for
 which patterns that is the usual meaning of '?' and '*' on the characters of the name.
 */
module PatternMatch {
  import opened FatLayout
  import Utf

  /** A character. */
  type uchar = nat

  const ANY_ONE: uchar := 0x3F
  const ANY_MANY: uchar := 0x2A

  /** Largest number of wildcard terms a search pattern may have. */
  const FIND_RECURS := 4

  predicate Wild(c: uchar) { c == ANY_ONE || c == ANY_MANY }

  /** Case folding, which is not part of this model: all that matters is that only the terminator folds to 0. */
  ghost predicate Folding(up: uchar -> uchar) {
    forall c: uchar :: up(c) == 0 <==> c == 0
  }

  /** A string without the terminator in it. */
  predicate Text(s: seq<uchar>) { 0 !in s }

  // ---------- the meaning of a pattern ----------

  /** '?' stands for one character, '*' for any number of them, and anything else for itself up to case. */
  ghost predicate Matches(up: uchar -> uchar, pat: seq<uchar>, nam: seq<uchar>)
    decreases |pat|, 0
  {
    if pat == [] then nam == []
    else if pat[0] == ANY_MANY then AnyTail(up, pat[1..], nam)
    else nam != [] && (pat[0] == ANY_ONE || up(pat[0]) == up(nam[0])) && Matches(up, pat[1..], nam[1..])
  }

  /** Some rest of the name matches. */
  ghost predicate AnyTail(up: uchar -> uchar, pat: seq<uchar>, nam: seq<uchar>)
    decreases |pat|, 1
  {
    exists k | 0 <= k <= |nam| :: Matches(up, pat, nam[k..])
  }

  // ---------- the parts of a pattern ----------

  /** Length of the literal text a pattern begins with. */
  function Lit(pat: seq<uchar>): (l: nat)
    ensures l <= |pat| && (forall i | 0 <= i < l :: !Wild(pat[i])) && (l < |pat| ==> Wild(pat[l]))
  {
    if pat == [] || Wild(pat[0]) then 0 else 1 + Lit(pat[1..])
  }

  /** Length of the wildcard term a pattern begins with. */
  function Run(pat: seq<uchar>): (r: nat)
    ensures r <= |pat| && (forall i | 0 <= i < r :: Wild(pat[i])) && (r < |pat| ==> !Wild(pat[r]))
  {
    if pat == [] || !Wild(pat[0]) then 0 else 1 + Run(pat[1..])
  }

  /** A pattern is text, followed by a wildcard term and another pattern unless it ends there. */
  function Text0(pat: seq<uchar>): seq<uchar> { pat[..Lit(pat)] }
  function Term0(pat: seq<uchar>): seq<uchar> { pat[Lit(pat)..Lit(pat) + Run(pat[Lit(pat)..])] }
  function Rest0(pat: seq<uchar>): (r: seq<uchar>)
    ensures |r| <= |pat| && (Lit(pat) < |pat| ==> |r| < |pat|)
  {
    pat[Lit(pat) + Run(pat[Lit(pat)..])..]
  }

  lemma SplitAt(s: seq<uchar>, l: nat, r: nat)
    requires l + r <= |s|
    ensures s == s[..l] + (s[l..l + r] + s[l + r..])
  {
  }

  lemma Parts(pat: seq<uchar>)
    ensures pat == Text0(pat) + (Term0(pat) + Rest0(pat)) && |Text0(pat)| == Lit(pat)
    ensures Lit(pat) < |pat| ==> Term0(pat) != []
    ensures Lit(pat) == |pat| ==> Term0(pat) == [] && Rest0(pat) == []
    ensures forall i | 0 <= i < |Term0(pat)| :: Wild(Term0(pat)[i])
    ensures forall i | 0 <= i < |Text0(pat)| :: !Wild(Text0(pat)[i])
  {
    hide Lit, Run;
    var l := Lit(pat);
    SplitAt(pat, l, Run(pat[l..]));
    assert forall i | 0 <= i < |Term0(pat)| :: Term0(pat)[i] == pat[l..][i];
    assert l < |pat| ==> pat[l..][0] == pat[l];
  }

  function Qs(run: seq<uchar>): nat {
    if run == [] then 0 else Qs(run[..|run| - 1]) + if run[|run| - 1] == ANY_ONE then 1 else 0
  }

  /** What the matcher makes of a wildcard term: the number of '?' counted up, with bit 8 set for '*'. */
  function Sk(run: seq<uchar>): nat {
    if run == [] then 0
    else
      var s := Sk(run[..|run| - 1]);
      if run[|run| - 1] == ANY_ONE then s + 1 else if s / 0x100 % 2 == 1 then s else s + 0x100
  }

  lemma ModSteps(s: nat, q: nat)
    requires s % 0x100 == q % 0x100
    ensures (s + 1) % 0x100 == (q + 1) % 0x100 && (s + 0x100) % 0x100 == q % 0x100
    ensures s < 0x100 && q < 0x100 ==> s == q
  {
  }

  /** The count of '?' in the low byte is right modulo 256, and from 256 on it passes for a '*'. */
  lemma {:induction false} SkMeans(run: seq<uchar>)
    requires forall i | 0 <= i < |run| :: Wild(run[i])
    ensures Sk(run) % 0x100 == Qs(run) % 0x100
    ensures Sk(run) >= 0x100 <==> ANY_MANY in run || Qs(run) >= 0x100
  {
    if run != [] {
      var before, c := run[..|run| - 1], run[|run| - 1];
      assert run == before + [c] && Wild(c);
      SkMeans(before);
      assert ANY_MANY in run <==> ANY_MANY in before || c == ANY_MANY;
      ModSteps(Sk(before), Qs(before));
    }
  }

  /** Number of wildcard terms. */
  function Terms(pat: seq<uchar>): nat
    decreases |pat|
  {
    if Lit(pat) == |pat| then 0 else 1 + Terms(Rest0(pat))
  }

  /** No wildcard term has 256 '?' or more. */
  predicate Small(pat: seq<uchar>)
    decreases |pat|
  {
    Lit(pat) == |pat| || (Qs(Term0(pat)) < 0x100 && Small(Rest0(pat)))
  }

  // ---------- the matcher ----------

  /** What the matcher computes: skip tells the wildcard term in front of the pattern, as Sk gives it. */
  ghost predicate Found(up: uchar -> uchar, pat: seq<uchar>, nam: seq<uchar>, skip: nat, recur: nat)
    decreases recur, 1
  {
    skip % 0x100 <= |nam| &&
    ((pat == [] && skip >= 0x100) ||
     exists j | skip % 0x100 <= j <= |nam| :: (j == skip % 0x100 || skip >= 0x100) && Branch(up, pat, nam[j..], recur))
  }

  /** Matching from the start of the name, wildcard terms by further calls. */
  ghost predicate Branch(up: uchar -> uchar, pat: seq<uchar>, nam: seq<uchar>, recur: nat)
    decreases recur, 0
  {
    && Lit(pat) <= |nam| && (forall i | 0 <= i < Lit(pat) :: up(pat[i]) == up(nam[i]))
    && if Lit(pat) == |pat| then |nam| == |pat|
       else recur > 0 && Found(up, Rest0(pat), nam[Lit(pat)..], Sk(Term0(pat)), recur - 1)
  }

  // ---------- the characters of a byte string ----------

  /** The characters from place i on, up to the terminator or to bytes that are no UTF-8. */
  function Chars(s: seq<byte>, i: nat): (cs: seq<uchar>)
    ensures Text(cs)
    decreases |s| - i
  {
    match Utf.Tchar2Uni(s, i)
    case Bad => []
    case Ch(c, next) => if c == 0 || !(i < next <= |s|) then [] else [c as uchar] + Chars(s, next)
  }

  lemma {:induction false} TrailInside(s: seq<byte>, i: nat, nf: nat, uc: nat)
    requires Utf.Trail(s, i, nf, uc).0
    ensures nf == 0 || i + nf <= |s|
    decreases nf
  {
    if nf > 0 {
      TrailInside(s, i + 1, nf - 1, uc * 0x40 + Utf.At(s, i) % 0x40);
    }
  }

  /** No character but the terminator ends a string, and only a one-byte character is told by its first byte. */
  lemma CharStep(s: seq<byte>, i: nat)
    ensures match Utf.Tchar2Uni(s, i)
      case Bad => Chars(s, i) == [] && Utf.At(s, i) >= 0x80
      case Ch(c, next) =>
        && (c == 0 <==> Utf.At(s, i) == 0) && (c == 0 ==> Chars(s, i) == [])
        && (c != 0 ==> Chars(s, i) == [c as uchar] + Chars(s, next))
        && if Utf.At(s, i) < 0x80 then c == Utf.At(s, i) && next == i + 1 else c >= 0x80
  {
    var b := Utf.At(s, i);
    if b >= 0x80 && Utf.Tchar2Uni(s, i).Ch? {
      TrailInside(s, i + 1, Utf.Follow(b), Utf.Lead(b));
    }
  }

  /** Testing the byte for '?' and '*' is testing the character. */
  lemma RawWild(s: seq<byte>, i: nat)
    ensures Wild(Utf.At(s, i)) <==> Chars(s, i) != [] && Wild(Chars(s, i)[0])
    ensures Wild(Utf.At(s, i)) ==> Chars(s, i)[0] == Utf.At(s, i) && Chars(s, i + 1) == Chars(s, i)[1..]
    ensures Utf.At(s, i) == 0 ==> Chars(s, i) == []
  {
    hide Chars, Utf.Tchar2Uni;
    CharStep(s, i);
  }

  /** get_achar: 0 at the end, which a wrong encoding is too, where it stays. */
  method GetAchar(up: uchar -> uchar, s: seq<byte>, i: nat) returns (chr: uchar, next: nat)
    requires Folding(up)
    ensures Chars(s, i) == [] ==> chr == 0
    ensures Chars(s, i) != [] ==> chr != 0 && chr == up(Chars(s, i)[0]) && Chars(s, next) == Chars(s, i)[1..]
    ensures Utf.Tchar2Uni(s, i).Bad? ==> next == i
  {
    hide Chars, Utf.Tchar2Uni;
    CharStep(s, i);
    var r := Utf.ReadChar(s, i);
    match r
    case Bad => chr, next := up(0), i;
    case Ch(c, n) => chr, next := up(c), n;
  }

  /** A name that has an encoding: characters of the basic plane or surrogate pairs, none of them the terminator. */
  predicate Encodable(cs: seq<uchar>) {
    forall i | 0 <= i < |cs| :: 0 < cs[i] < 0x1_0000_0000 && Utf.Proper(cs[i])
  }

  /** The UTF-8 encoding of a name. */
  function Encoded(cs: seq<uchar>): seq<byte>
    requires Encodable(cs)
  {
    if cs == [] then [] else Utf.PutUtf(cs[0], 4) + Encoded(cs[1..])
  }

  /** The matcher sees of an encoded name exactly its characters. */
  lemma {:induction false} CharsOfEncoded(before: seq<byte>, cs: seq<uchar>)
    requires Encodable(cs)
    ensures Chars(before + Encoded(cs), |before|) == cs
    decreases |cs|
  {
    hide Utf.PutUtf, Utf.Tchar2Uni, Utf.Proper, Chars;
    var s := before + Encoded(cs);
    CharStep(s, |before|);
    if cs == [] {
      EndOfString(s);
    } else {
      var b := Utf.PutUtf(cs[0], 4);
      assert s == before + b + Encoded(cs[1..]) && s == (before + b) + Encoded(cs[1..]);
      Utf.RoundTrip(cs[0], before, Encoded(cs[1..]));
      CharsOfEncoded(before + b, cs[1..]);
      assert cs == [cs[0]] + cs[1..];
    }
  }

  lemma EndOfString(s: seq<byte>)
    ensures Utf.Tchar2Uni(s, |s|) == Utf.Ch(0, |s| + 1)
  {
  }

  // ---------- the matcher on byte strings ----------

  datatype Try = Matched | TooMany | Failed(nchr: uchar)

  lemma TermStep(pat: seq<uchar>, i: nat, e: nat)
    requires i <= |pat| && i <= e <= i + Run(pat[i..])
    ensures e <= |pat| && (e < i + Run(pat[i..]) <==> e < |pat| && Wild(pat[e]))
    ensures e < |pat| ==>
      var s := Sk(pat[i..e]);
      Sk(pat[i..e + 1]) == if pat[e] == ANY_ONE then s + 1 else if s / 0x100 % 2 == 1 then s else s + 0x100
  {
    hide Run;
    if e < |pat| {
      assert pat[i..][e - i] == pat[e];
      assert pat[i..e + 1][..e - i] == pat[i..e] && pat[i..e + 1][e - i] == pat[e];
    }
  }

  /** The wildcard term at place i of the pattern: what it means and where it ends; ps is the pattern, a of it read. */
  method Analyze(pat: seq<byte>, i: nat, ghost ps: seq<uchar>, ghost a: nat) returns (sk: nat, e: nat)
    requires a < |ps| && a == Lit(ps) && Chars(pat, i) == ps[a..]
    ensures Chars(pat, e) == Rest0(ps) && sk == Sk(Term0(ps)) && !Wild(Utf.At(pat, e))
  {
    hide Lit, Run, Wild, Sk, Chars;
    sk, e := 0, i;
    ghost var k := a;
    SkNothing(ps, a);
    RawWild(pat, e);
    while Wild(Utf.At(pat, e))
      invariant a <= k <= a + Run(ps[a..]) && k <= |ps| && Chars(pat, e) == ps[k..]
      invariant sk == Sk(ps[a..k])
      invariant Wild(Utf.At(pat, e)) <==> k < |ps| && Wild(ps[k])
      decreases |ps| - k
    {
      RawWild(pat, e);
      TermStep(ps, a, k);
      sk := if Utf.At(pat, e) == ANY_ONE then sk + 1 else if sk / 0x100 % 2 == 1 then sk else sk + 0x100;
      e, k := e + 1, k + 1;
      RawWild(pat, e);
    }
    TermStep(ps, a, k);
    Parts(ps);
  }

  lemma SkNothing(pat: seq<uchar>, i: nat)
    requires i <= |pat|
    ensures Sk(pat[i..i]) == 0
  {
  }

  /** The first i characters of the pattern are text, and agree with the name from place p on. */
  ghost predicate Agrees(up: uchar -> uchar, pat: seq<uchar>, nam: seq<uchar>, p: nat, i: nat)
    requires i <= |pat|
  {
    i <= Lit(pat) && p + i <= |nam| && forall k | 0 <= k < i :: up(pat[k]) == up(nam[p + k])
  }

  /** Whether the branch is taken, told from how far the pattern and the name agree. */
  lemma BranchIs(up: uchar -> uchar, pat: seq<uchar>, nam: seq<uchar>, p: nat, i: nat, recur: nat)
    requires Folding(up) && Text(pat) && Text(nam) && p <= |nam| && i <= |pat| && Agrees(up, pat, nam, p, i)
    ensures i < Lit(pat) && (p + i == |nam| || up(pat[i]) != up(nam[p + i])) ==> !Branch(up, pat, nam[p..], recur)
    ensures i == |pat| ==> (Branch(up, pat, nam[p..], recur) <==> p + i == |nam|)
    ensures i == Lit(pat) < |pat| ==> (Branch(up, pat, nam[p..], recur) <==>
      (recur > 0 && Found(up, Rest0(pat), nam[p + i..], Sk(Term0(pat)), recur - 1)))
  {
    hide Found;
    assert forall k | 0 <= k < |nam| - p :: nam[p..][k] == nam[p + k];
    assert nam[p..][i..] == nam[p + i..];
  }

  /** The inner loop: the pattern at place pat against the name at place nam. */
  method TryBranch(up: uchar -> uchar, pstr: seq<byte>, pat: nat, nstr: seq<byte>, nam: nat, recur: nat)
    returns (res: Try)
    requires Folding(up)
    ensures res.Matched? <==> Branch(up, Chars(pstr, pat), Chars(nstr, nam), recur)
    ensures res.TooMany? ==> recur == 0 && Lit(Chars(pstr, pat)) < |Chars(pstr, pat)|
    ensures res == Failed(0) ==> (|Chars(nstr, nam)| < Lit(Chars(pstr, pat))
              || |Chars(nstr, nam)| == Lit(Chars(pstr, pat)) < |Chars(pstr, pat)|)
    ensures res.Failed? && Chars(nstr, nam) == [] && !Wild(Utf.At(pstr, pat)) ==> res.nchr == 0
    decreases recur, 0
  {
    hide Branch, Found, Chars, Run;
    ghost var ps, ns := Chars(pstr, pat), Chars(nstr, nam);
    ghost var k := 0;
    var pptr, nptr := pat, nam;
    while true
      invariant 0 <= k <= |ps| && k <= |ns| && Chars(pstr, pptr) == ps[k..] && Chars(nstr, nptr) == ns[k..]
      invariant Agrees(up, ps, ns, 0, k) && (k == 0 ==> pptr == pat)
      decreases |ps| - k
    {
      BranchIs(up, ps, ns, 0, k, recur);
      assert ns[0..] == ns;
      RawWild(pstr, pptr);
      if Wild(Utf.At(pstr, pptr)) {
        if recur == 0 {
          return TooMany;
        }
        var sk, e := Analyze(pstr, pptr, ps, k);
        var ok := PatternMatch(up, pstr, e, nstr, nptr, sk, recur - 1);
        RawWild(nstr, nptr);
        return if ok then Matched else Failed(Utf.At(nstr, nptr));
      }
      var pchr, pnext := GetAchar(up, pstr, pptr);
      var nchr, nnext := GetAchar(up, nstr, nptr);
      if pchr != nchr {
        return Failed(nchr);
      }
      if pchr == 0 {
        return Matched;
      }
      pptr, nptr, k := pnext, nnext, k + 1;
    }
  }

  /** Nothing is lost when the search ends: the places before p failed, and from p on no place can match. */
  lemma SearchOver(up: uchar -> uchar, pat: seq<uchar>, nam: seq<uchar>, skip: nat, recur: nat, p: nat)
    requires skip % 0x100 <= p <= |nam| + 1 && !(pat == [] && skip >= 0x100)
    requires forall j | skip % 0x100 <= j < p && j <= |nam| :: !Branch(up, pat, nam[j..], recur)
    requires || p > |nam| || |nam| - p < Lit(pat) || (recur == 0 && Lit(pat) < |pat|)
             || (p > skip % 0x100 && skip < 0x100)
    ensures !Found(up, pat, nam, skip, recur)
  {
    forall j | skip % 0x100 <= j <= |nam| && (j == skip % 0x100 || skip >= 0x100)
      ensures !Branch(up, pat, nam[j..], recur)
    {
    }
  }

  /** pattern_match. A '*' in the term in front has taken all the wildcards that follow it. */
  method PatternMatch(up: uchar -> uchar, pstr: seq<byte>, pat: nat, nstr: seq<byte>, nam: nat, skip: nat, recur: nat)
    returns (res: bool)
    requires Folding(up) && (skip >= 0x100 ==> !Wild(Utf.At(pstr, pat)))
    ensures res == Found(up, Chars(pstr, pat), Chars(nstr, nam), skip, recur)
    decreases recur, 1
  {
    hide Branch, Chars, Lit;
    ghost var ps, ns := Chars(pstr, pat), Chars(nstr, nam);
    ghost var k := 0;
    var p, sk := nam, skip;
    while sk % 0x100 != 0
      invariant 0 <= sk && sk - sk % 0x100 == skip - skip % 0x100
      invariant k == skip % 0x100 - sk % 0x100 <= |ns| && Chars(nstr, p) == ns[k..]
    {
      var c, next := GetAchar(up, nstr, p);
      if c == 0 {
        return false;
      }
      p, sk, k := next, sk - 1, k + 1;
    }
    RawWild(pstr, pat);
    if Utf.At(pstr, pat) == 0 && sk != 0 {
      return true;
    }
    var more := true;
    while more
      invariant skip % 0x100 <= k && (more ==> k <= |ns| && Chars(nstr, p) == ns[k..])
      invariant more ==> forall j | skip % 0x100 <= j < k :: !Branch(up, ps, ns[j..], recur)
      invariant more ==> k == skip % 0x100 || sk != 0
      invariant !more ==> !Found(up, ps, ns, skip, recur)
      decreases |ns| - k + if more then 1 else 0
    {
      var t := TryBranch(up, pstr, pat, nstr, p, recur);
      if t.Matched? {
        return true;
      }
      if t.TooMany? {
        SearchOver(up, ps, ns, skip, recur, k);
        return false;
      }
      more := sk != 0 && t.nchr != 0;
      if !more {
        SearchOver(up, ps, ns, skip, recur, k + 1);
      }
      var c, next := GetAchar(up, nstr, p);
      p, k := next, k + 1;
    }
    return false;
  }

  // ---------- what the matcher computes is the meaning of another pattern ----------

  /** q '?', then '*' if star. */
  function Wilds(q: nat, star: bool): (w: seq<uchar>)
    ensures forall i | 0 <= i < |w| :: Wild(w[i])
  {
    if q > 0 then [ANY_ONE] + Wilds(q - 1, star) else if star then [ANY_MANY] else []
  }

  /** The wildcard term that skip stands for. */
  function Term(skip: nat): seq<uchar> { Wilds(skip % 0x100, skip >= 0x100) }

  /** The pattern as the matcher takes it: every wildcard term replaced by what its count in Sk stands for. */
  function Norm(pat: seq<uchar>): seq<uchar>
    decreases |pat|
  {
    if Lit(pat) == |pat| then pat else Text0(pat) + (Term(Sk(Term0(pat))) + Norm(Rest0(pat)))
  }

  /** A wildcard term with q '?' in front of a pattern. */
  ghost predicate AfterTerm(up: uchar -> uchar, q: nat, star: bool, pat: seq<uchar>, nam: seq<uchar>) {
    q <= |nam| && if star then AnyTail(up, pat, nam[q..]) else Matches(up, pat, nam[q..])
  }

  /** Only the number of '?' in a wildcard term matters, and whether there is a '*' in it. */
  lemma {:induction false} TermMeans(up: uchar -> uchar, run: seq<uchar>, pat: seq<uchar>, nam: seq<uchar>)
    requires forall i | 0 <= i < |run| :: Wild(run[i])
    ensures Matches(up, run + pat, nam) <==> AfterTerm(up, Qs(run), ANY_MANY in run, pat, nam)
    decreases |run|, 0
  {
    if run == [] {
      assert run + pat == pat && nam[0..] == nam;
    } else {
      var rest := run[1..];
      assert (run + pat)[1..] == rest + pat && (run + pat)[0] == run[0];
      assert run == [run[0]] + rest;
      QsFirst(run);
      if run[0] == ANY_ONE {
        if nam != [] {
          TermMeans(up, rest, pat, nam[1..]);
          if Qs(rest) < |nam| {
            assert nam[1..][Qs(rest)..] == nam[Qs(run)..];
          }
        }
      } else {
        StarMeans(up, rest, pat, nam);
      }
    }
  }

  lemma {:induction false} QsFirst(run: seq<uchar>)
    requires run != []
    ensures Qs(run) == Qs(run[1..]) + if run[0] == ANY_ONE then 1 else 0
  {
    if |run| > 1 {
      var init := run[..|run| - 1];
      QsFirst(init);
      assert init[1..] == run[1..][..|run| - 2];
    }
  }

  /** '*' in front of a wildcard term. */
  lemma {:induction false} StarMeans(up: uchar -> uchar, run: seq<uchar>, pat: seq<uchar>, nam: seq<uchar>)
    requires forall i | 0 <= i < |run| :: Wild(run[i])
    ensures AnyTail(up, run + pat, nam) <==> AfterTerm(up, Qs(run), true, pat, nam)
    decreases |run|, 1
  {
    var q, star := Qs(run), ANY_MANY in run;
    if AnyTail(up, run + pat, nam) {
      var k :| 0 <= k <= |nam| && Matches(up, run + pat, nam[k..]);
      TermMeans(up, run, pat, nam[k..]);
      var rest := nam[k..][q..];
      if star {
        var j :| 0 <= j <= |rest| && Matches(up, pat, rest[j..]);
        assert rest[j..] == nam[q..][k + j..];
      } else {
        assert rest == nam[q..][k..];
      }
    }
    if AfterTerm(up, q, true, pat, nam) {
      var k :| 0 <= k <= |nam[q..]| && Matches(up, pat, nam[q..][k..]);
      assert nam[q..][k..] == nam[k..][q..];
      if star {
        assert nam[0..] == nam;
        TermMeans(up, run, pat, nam);
      } else {
        TermMeans(up, run, pat, nam[k..]);
      }
    }
  }

  /** Text in front of a pattern. */
  lemma {:induction false} TextMeans(up: uchar -> uchar, text: seq<uchar>, pat: seq<uchar>, nam: seq<uchar>)
    requires forall i | 0 <= i < |text| :: !Wild(text[i])
    ensures Matches(up, text + pat, nam) <==>
      |text| <= |nam| && (forall i | 0 <= i < |text| :: up(text[i]) == up(nam[i])) && Matches(up, pat, nam[|text|..])
  {
    if text == [] {
      assert text + pat == pat && nam[0..] == nam;
    } else {
      assert (text + pat)[1..] == text[1..] + pat && (text + pat)[0] == text[0];
      if nam != [] {
        TextMeans(up, text[1..], pat, nam[1..]);
        assert forall i | 1 <= i < |text| && i < |nam| :: text[i] == text[1..][i - 1] && nam[i] == nam[1..][i - 1];
        assert |text| <= |nam| ==> nam[1..][|text| - 1..] == nam[|text|..];
        if
          && |text| <= |nam| && up(text[0]) == up(nam[0])
          && forall i | 0 <= i < |text| - 1 :: up(text[1..][i]) == up(nam[1..][i]) {
          forall i | 0 <= i < |text|
            ensures up(text[i]) == up(nam[i])
          {
            assert i > 0 ==> up(text[1..][i - 1]) == up(nam[1..][i - 1]);
          }
        }
      }
    }
  }

  lemma {:induction false} WildsMean(q: nat, star: bool)
    ensures Qs(Wilds(q, star)) == q && (ANY_MANY in Wilds(q, star) <==> star)
  {
    if q > 0 {
      WildsMean(q - 1, star);
      QsFirst(Wilds(q, star));
    } else if star {
      assert [ANY_MANY][..0] == [];
    }
  }

  lemma NormParts(pat: seq<uchar>)
    ensures Lit(pat) == |pat| ==> Norm(pat) == Text0(pat) + [] && Terms(pat) == 0
    ensures Lit(pat) < |pat| ==>
      Norm(pat) == Text0(pat) + (Term(Sk(Term0(pat))) + Norm(Rest0(pat))) && Terms(pat) == 1 + Terms(Rest0(pat))
  {
    hide Lit, Run;
  }

  lemma EmptyMatches(up: uchar -> uchar, nam: seq<uchar>)
    ensures Matches(up, [], nam) <==> nam == []
  {
  }

  /** A branch is taken exactly when the pattern the matcher goes by matches, and has few enough wildcard terms. */
  lemma {:induction false} BranchMeans(up: uchar -> uchar, pat: seq<uchar>, nam: seq<uchar>, recur: nat)
    ensures Branch(up, pat, nam, recur) <==> Terms(pat) <= recur && Matches(up, Norm(pat), nam)
    decreases recur, 0
  {
    hide Lit, Run, Found, Norm, Terms, Term, Sk, Matches, Rest0, Term0;
    NormParts(pat);
    Parts(pat);
    var l := Lit(pat);
    assert forall i | 0 <= i < l :: Text0(pat)[i] == pat[i];
    if l == |pat| {
      TextMeans(up, Text0(pat), [], nam);
      if l <= |nam| {
        EmptyMatches(up, nam[l..]);
      }
    } else {
      TextMeans(up, Text0(pat), Term(Sk(Term0(pat))) + Norm(Rest0(pat)), nam);
      if recur > 0 && l <= |nam| {
        FoundMeans(up, Rest0(pat), nam[l..], Sk(Term0(pat)), recur - 1);
      }
    }
  }

  /** The matcher, called with the wildcard term skip in front of the pattern. */
  lemma {:induction false} FoundMeans(up: uchar -> uchar, pat: seq<uchar>, nam: seq<uchar>, skip: nat, recur: nat)
    ensures Found(up, pat, nam, skip, recur) <==> Terms(pat) <= recur && Matches(up, Term(skip) + Norm(pat), nam)
    decreases recur, 1
  {
    hide Branch, Lit, Run, Norm, Terms, Matches;
    var q, star := skip % 0x100, skip >= 0x100;
    WildsMean(q, star);
    TermMeans(up, Term(skip), Norm(pat), nam);
    if Found(up, pat, nam, skip, recur) {
      if pat == [] && star {
        EmptyPattern();
        EmptyMatches(up, nam[q..][|nam| - q..]);
      } else {
        var j :| q <= j <= |nam| && (j == q || star) && Branch(up, pat, nam[j..], recur);
        BranchMeans(up, pat, nam[j..], recur);
        assert nam[q..][j - q..] == nam[j..];
      }
    }
    if Terms(pat) <= recur && AfterTerm(up, q, star, Norm(pat), nam) {
      var k := 0;
      if star {
        k :| 0 <= k <= |nam[q..]| && Matches(up, Norm(pat), nam[q..][k..]);
      }
      assert nam[q + k..] == nam[q..][k..];
      BranchMeans(up, pat, nam[q + k..], recur);
    }
  }

  lemma EmptyPattern()
    ensures Terms([]) == 0 && Norm([]) == []
  {
  }

  /** For patterns without long runs of '?', the pattern the matcher goes by means the same as the given one. */
  lemma {:induction false} NormMeans(up: uchar -> uchar, pat: seq<uchar>, nam: seq<uchar>)
    requires Small(pat)
    ensures Matches(up, Norm(pat), nam) <==> Matches(up, pat, nam)
    decreases |pat|
  {
    hide Lit, Run, Sk, Qs, Matches;
    if Lit(pat) < |pat| {
      Parts(pat);
      var text, run, rest := Text0(pat), Term0(pat), Rest0(pat);
      TextMeans(up, text, run + rest, nam);
      TextMeans(up, text, Term(Sk(run)) + Norm(rest), nam);
      if |text| <= |nam| {
        var nam1 := nam[|text|..];
        SkMeans(run);
        WildsMean(Sk(run) % 0x100, Sk(run) >= 0x100);
        TermMeans(up, run, rest, nam1);
        TermMeans(up, Term(Sk(run)), Norm(rest), nam1);
        forall k | 0 <= k <= |nam1|
          ensures Matches(up, Norm(rest), nam1[k..]) <==> Matches(up, rest, nam1[k..])
        {
          NormMeans(up, rest, nam1[k..]);
        }
        AfterSame(up, Qs(run), ANY_MANY in run, rest, Norm(rest), nam1);
      }
    }
  }

  lemma AfterSame(up: uchar -> uchar, q: nat, star: bool, a: seq<uchar>, b: seq<uchar>, nam: seq<uchar>)
    requires forall k | 0 <= k <= |nam| :: Matches(up, b, nam[k..]) <==> Matches(up, a, nam[k..])
    ensures AfterTerm(up, q, star, a, nam) <==> AfterTerm(up, q, star, b, nam)
  {
    hide Matches;
    if q <= |nam| {
      assert forall k | 0 <= k <= |nam| - q :: nam[q..][k..] == nam[q + k..];
    }
  }

  // ---------- exactly when the matcher is right ----------

  /** The characters a name has to have at least: all of the pattern but the '*'. */
  function Singles(pat: seq<uchar>): nat {
    if pat == [] then 0 else Singles(pat[1..]) + if pat[0] == ANY_MANY then 0 else 1
  }

  lemma {:induction false} SinglesAdd(a: seq<uchar>, b: seq<uchar>)
    ensures Singles(a + b) == Singles(a) + Singles(b)
  {
    if a == [] {
      assert a + b == b;
    } else {
      SinglesAdd(a[1..], b);
      assert (a + b)[1..] == a[1..] + b;
    }
  }

  lemma {:induction false} NeedsSingles(up: uchar -> uchar, pat: seq<uchar>, nam: seq<uchar>)
    requires Matches(up, pat, nam)
    ensures |nam| >= Singles(pat)
    decreases |pat|
  {
    if pat != [] {
      if pat[0] == ANY_MANY {
        var k :| 0 <= k <= |nam| && Matches(up, pat[1..], nam[k..]);
        NeedsSingles(up, pat[1..], nam[k..]);
      } else {
        NeedsSingles(up, pat[1..], nam[1..]);
      }
    }
  }

  /** The shortest name the pattern matches: itself without the '*'. */
  function Shortest(pat: seq<uchar>): (nam: seq<uchar>)
    ensures |nam| == Singles(pat)
  {
    if pat == [] then [] else (if pat[0] == ANY_MANY then [] else [pat[0]]) + Shortest(pat[1..])
  }

  lemma {:induction false} ShortestMatches(up: uchar -> uchar, pat: seq<uchar>)
    ensures Matches(up, pat, Shortest(pat))
  {
    if pat != [] {
      ShortestMatches(up, pat[1..]);
      if pat[0] == ANY_MANY {
        assert Shortest(pat)[0..] == Shortest(pat[1..]);
      } else {
        assert Shortest(pat)[1..] == Shortest(pat[1..]);
      }
    }
  }

  lemma {:induction false} SinglesOfWild(run: seq<uchar>)
    requires forall i | 0 <= i < |run| :: Wild(run[i])
    ensures Singles(run) == Qs(run)
  {
    if run != [] {
      SinglesOfWild(run[1..]);
      QsFirst(run);
    }
  }

  /** A run of 256 '?' makes the pattern the matcher goes by shorter. */
  lemma {:induction false} NormSingles(pat: seq<uchar>)
    ensures Singles(Norm(pat)) <= Singles(pat)
    ensures !Small(pat) ==> Singles(Norm(pat)) < Singles(pat)
    decreases |pat|
  {
    hide Lit, Run, Sk, Qs;
    if Lit(pat) < |pat| {
      Parts(pat);
      var text, run, rest := Text0(pat), Term0(pat), Rest0(pat);
      NormSingles(rest);
      SkMeans(run);
      WildsMean(Sk(run) % 0x100, Sk(run) >= 0x100);
      SinglesOfWild(run);
      SinglesOfWild(Term(Sk(run)));
      SinglesAdd(text, run + rest);
      SinglesAdd(run, rest);
      SinglesAdd(text, Term(Sk(run)) + Norm(rest));
      SinglesAdd(Term(Sk(run)), Norm(rest));
    }
  }

  /** The matcher tells what the pattern means, for every pattern whose wildcard terms have less than 256 '?'. */
  lemma MatcherIsRight(up: uchar -> uchar, pat: seq<uchar>, nam: seq<uchar>, recur: nat)
    requires Small(pat)
    ensures Found(up, pat, nam, 0, recur) <==> Terms(pat) <= recur && Matches(up, pat, nam)
  {
    FoundMeans(up, pat, nam, 0, recur);
    assert Term(0) + Norm(pat) == Norm(pat);
    NormMeans(up, pat, nam);
  }

  /** A pattern of '*' alone matches every name. */
  lemma {:induction false} StarsMatchAll(up: uchar -> uchar, pat: seq<uchar>, nam: seq<uchar>)
    requires pat != [] && Singles(pat) == 0
    ensures Matches(up, pat, nam)
    decreases |pat|
  {
    if |pat| == 1 {
      assert pat[1..] == [] && nam[|nam|..] == [];
      assert Matches(up, pat[1..], nam[|nam|..]);
    } else {
      StarsMatchAll(up, pat[1..], nam);
      assert nam[0..] == nam;
    }
  }

  lemma {:induction false} LongRunCounts(pat: seq<uchar>)
    requires !Small(pat)
    ensures Singles(pat) >= 0x100 && Norm(pat) != []
    decreases |pat|
  {
    hide Lit, Run, Sk, Qs;
    Parts(pat);
    var text, run, rest := Text0(pat), Term0(pat), Rest0(pat);
    SkMeans(run);
    SinglesOfWild(run);
    SinglesAdd(text, run + rest);
    SinglesAdd(run, rest);
    if Qs(run) >= 0x100 {
      WildsMean(Sk(run) % 0x100, true);
      assert ANY_MANY in Term(Sk(run));
    } else {
      LongRunCounts(rest);
    }
  }

  /** A name with a character in it that the pattern does not match, but the pattern the matcher goes by does. */
  lemma WrongName(up: uchar -> uchar, pat: seq<uchar>) returns (nam: seq<uchar>)
    requires !Small(pat)
    ensures nam != [] && Matches(up, Norm(pat), nam) && !Matches(up, pat, nam)
  {
    hide Small, Norm, Matches, Singles;
    NormSingles(pat);
    LongRunCounts(pat);
    nam := Shortest(Norm(pat));
    ShortestMatches(up, Norm(pat));
    if nam == [] {
      nam := [0x61];
      StarsMatchAll(up, Norm(pat), nam);
    }
    if Matches(up, pat, nam) {
      NeedsSingles(up, pat, nam);
    }
  }

  /**
   With no more wildcard terms than calls allowed, the matcher is right on every name exactly for these patterns; and
   names that are not empty, as all names in a directory are, tell the same.
   */
  lemma RightExactlyWhenSmall(up: uchar -> uchar, pat: seq<uchar>, recur: nat)
    requires Terms(pat) <= recur
    ensures Small(pat) <==> forall nam :: Found(up, pat, nam, 0, recur) <==> Matches(up, pat, nam)
    ensures Small(pat) <==> forall nam | nam != [] :: Found(up, pat, nam, 0, recur) <==> Matches(up, pat, nam)
  {
    if Small(pat) {
      forall nam
        ensures Found(up, pat, nam, 0, recur) <==> Matches(up, pat, nam)
      {
        MatcherIsRight(up, pat, nam, recur);
      }
    } else {
      var nam := WrongName(up, pat);
      FoundMeans(up, pat, nam, 0, recur);
      assert Term(0) + Norm(pat) == Norm(pat);
      assert Found(up, pat, nam, 0, recur) && !Matches(up, pat, nam);
    }
  }

  /** f_findfirst and f_findnext: up to four wildcard terms, each with less than 256 '?', have their usual meaning. */
  lemma SearchIsRight(up: uchar -> uchar, pat: seq<uchar>, nam: seq<uchar>)
    requires Small(pat)
    ensures Found(up, pat, nam, 0, FIND_RECURS) <==> Terms(pat) <= 4 && Matches(up, pat, nam)
  {
    MatcherIsRight(up, pat, nam, FIND_RECURS);
  }

  /** The same for the UTF-8 strings that the matcher is given. */
  lemma SearchOnBytes(up: uchar -> uchar, pat: seq<uchar>, nam: seq<uchar>)
    requires Encodable(pat) && Encodable(nam) && Small(pat)
    ensures Found(up, Chars(Encoded(pat), 0), Chars(Encoded(nam), 0), 0, FIND_RECURS)
      <==> Terms(pat) <= 4 && Matches(up, pat, nam)
  {
    CharsOfEncoded([], pat);
    CharsOfEncoded([], nam);
    assert [] + Encoded(pat) == Encoded(pat) && [] + Encoded(nam) == Encoded(nam);
    SearchIsRight(up, pat, nam);
  }

  /** n '?'. */
  function Questions(n: nat): seq<uchar> { seq(n, _ => ANY_ONE) }

  lemma {:induction false} QuestionsAreWild(n: nat)
    ensures |Questions(n)| == n && Lit(Questions(n)) == 0 && Run(Questions(n)) == n && Qs(Questions(n)) == n
    ensures Singles(Questions(n)) == n
  {
    if n > 0 {
      QuestionsAreWild(n - 1);
      assert Questions(n)[1..] == Questions(n - 1) && Questions(n)[..n - 1] == Questions(n - 1);
    } else {
      assert Questions(0) == [];
    }
  }

  /** 256 '?' in a row are taken for a '*': they are found in the name "a". */
  lemma ManyQuestions(up: uchar -> uchar)
    ensures Found(up, Questions(256), [0x61], 0, FIND_RECURS) && !Matches(up, Questions(256), [0x61])
  {
    hide Lit, Run, Sk, Qs, Found, Matches, Questions, Singles, Small;
    var pat := Questions(256);
    QuestionsAreWild(256);
    OneTerm(pat);
    if Matches(up, pat, [0x61]) {
      NeedsSingles(up, pat, [0x61]);
    }
    FoundMeans(up, pat, [0x61], 0, FIND_RECURS);
    SkMeans(pat);
    var w := Wilds(Sk(pat) % 0x100, Sk(pat) >= 0x100);
    assert w == [ANY_MANY];
    JustAStar();
    StarsMatchAll(up, [ANY_MANY], [0x61]);
    assert Term(0) + Norm(pat) == [ANY_MANY];
  }

  /** A pattern that is a single wildcard term. */
  lemma OneTerm(pat: seq<uchar>)
    requires Lit(pat) == 0 && Run(pat) == |pat| > 0
    ensures Terms(pat) == 1 && Norm(pat) == Term(Sk(pat)) && forall i | 0 <= i < |pat| :: Wild(pat[i])
  {
    hide Sk;
    assert pat[0..] == pat && Text0(pat) == [] && Term0(pat) == pat && Rest0(pat) == [];
    EmptyPattern();
    assert [] + (Term(Sk(pat)) + []) == Term(Sk(pat));
  }

  lemma JustAStar()
    ensures Singles([ANY_MANY]) == 0
  {
    assert [ANY_MANY][1..] == [];
  }
}
