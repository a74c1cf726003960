/**
 The decompressor of code modules: it reads the compressed bytes backwards and writes the output backwards
 into the same memory, from above the compressed bytes down over them.
 */
module Lzss {
  import opened FatLayout

  // ---------- the format ----------

  /** What the stream says to put in front of the output: a byte, or len bytes taken from off + 1 places further on. */
  datatype Token = Literal(b: byte) | Back(off: nat, len: nat)

  /** A token and the read cursor behind it. */
  datatype Step = Step(tok: Token, cur: int)

  function Len(tok: Token): nat { if tok.Literal? then 1 else tok.len }

  /** Memory, read as zero outside. */
  function At(m: seq<byte>, i: int): byte { if 0 <= i < |m| then m[i] else 0 }

  /** The token at cursor r, from the flag bit given. */
  function TokenAt(m: seq<byte>, r: int, back: bool): Step {
    if back then
      var hi, lo := At(m, r - 1) as int, At(m, r - 2) as int;
      Step(Back(hi % 0x10 * 0x100 + lo + 2, hi / 0x10 + 3), r - 2)
    else Step(Literal(At(m, r - 1)), r - 1)
  }

  /** The stream from cursor r down to stop; of the current flag byte, left bits are still to come, highest first. */
  function Parse(m: seq<byte>, r: int, stop: int, flags: byte, left: nat): seq<Step>
    decreases r - stop, 8 - left
  {
    if left == 0 then
      if r <= stop then [] else Parse(m, r - 1, stop, At(m, r - 1), 8)
    else
      var s := TokenAt(m, r, flags >= 0x80);
      [s] + (if s.cur <= stop then [] else Parse(m, s.cur, stop, flags as int * 2 % 0x100, left - 1))
  }

  /** n more bytes in front of the output, each the one off + 1 places after it. */
  function CopyBack(out: seq<byte>, off: nat, n: nat): (r: seq<byte>)
    requires off < |out|
    ensures |r| == |out| + n && r[n..] == out
    decreases n
  {
    if n == 0 then out else CopyBack([out[off]] + out, off, n - 1)
  }

  function Put(out: seq<byte>, tok: Token): (r: seq<byte>)
    requires tok.Back? ==> tok.off < |out|
    ensures |r| == |out| + Len(tok)
  {
    match tok
    case Literal(b) => [b] + out
    case Back(off, len) => CopyBack(out, off, len)
  }

  /** Back references stay in what has been put out. */
  predicate RefsOk(steps: seq<Step>, n: nat) {
    steps == [] ||
    ((steps[0].tok.Back? ==> steps[0].tok.off < n) && RefsOk(steps[1..], n + Len(steps[0].tok)))
  }

  /** Decompression into memory of its own: the tokens put one after the other in front of the output. */
  function Expand(steps: seq<Step>, out: seq<byte>): (r: seq<byte>)
    requires RefsOk(steps, |out|)
    ensures |r| >= |out|
  {
    if steps == [] then out else Expand(steps[1..], Put(out, steps[0].tok))
  }

  /** With n bytes put out below top, the write cursor never falls below the read cursor in what follows. */
  predicate Apart(steps: seq<Step>, n: nat, top: nat) {
    steps == [] ||
    (0 <= steps[0].cur <= top - n - Len(steps[0].tok) && Apart(steps[1..], n + Len(steps[0].tok), top))
  }

  // ---------- the footer ----------

  function Stop(m: seq<byte>, end: nat): int
    requires 8 <= end <= |m|
  {
    end - LdDword(m, end - 8) % 0x100_0000
  }

  function Start(m: seq<byte>, end: nat): int
    requires 8 <= end <= |m|
  {
    end - LdDword(m, end - 8) / 0x100_0000
  }

  function Top(m: seq<byte>, end: nat): int
    requires 8 <= end <= |m|
  {
    end + LdDword(m, end - 4)
  }

  function Stream(m: seq<byte>, end: nat): seq<Step>
    requires 8 <= end <= |m|
  {
    Parse(m, Start(m, end), Stop(m, end), 0, 0)
  }

  /** A module that can be decompressed in place. */
  predicate InPlace(m: seq<byte>, end: nat) {
    && 8 <= end <= |m| && Top(m, end) <= |m|
    && RefsOk(Stream(m, end), 0) && Apart(Stream(m, end), 0, Top(m, end))
  }

  /** The decompressed bytes. */
  function Output(m: seq<byte>, end: nat): seq<byte>
    requires InPlace(m, end)
  {
    Expand(Stream(m, end), [])
  }

  // ---------- the in-place decoder ----------

  /** Memory while it is overwritten: out lies below top, and the rest is as it was. */
  predicate Filled(was: seq<byte>, now: seq<byte>, top: nat, out: seq<byte>) {
    |out| <= top <= |was| && now == was[..top - |out|] + out + was[top..]
  }

  lemma FillOne(was: seq<byte>, before: seq<byte>, top: nat, out: seq<byte>, b: byte)
    requires Filled(was, before, top, out) && |out| < top
    ensures |before| == |was| && Filled(was, before[top - |out| - 1 := b], top, [b] + out)
  {
    assert before[top - |out| - 1 := b] == was[..top - |out| - 1] + ([b] + out) + was[top..];
  }

  lemma FilledAt(was: seq<byte>, now: seq<byte>, top: nat, out: seq<byte>)
    requires Filled(was, now, top, out)
    ensures |now| == |was| && |out| <= top <= |was|
    ensures forall i | 0 <= i < top - |out| :: now[i] == was[i]
    ensures forall i | 0 <= i < |out| :: now[top - |out| + i] == out[i]
  {
  }

  /** The byte a back reference tells, and memory with it put in front of the output. */
  lemma CopyStep(was: seq<byte>, now: seq<byte>, top: nat, out: seq<byte>, off: nat)
    requires Filled(was, now, top, out) && off < |out| < top
    ensures |now| == |was| && now[top - |out| + off] == out[off]
    ensures Filled(was, now[top - |out| - 1 := out[off]], top, [out[off]] + out)
  {
    FilledAt(was, now, top, out);
    FillOne(was, now, top, out, out[off]);
  }

  lemma CopyBackStep(out: seq<byte>, off: nat, n: nat)
    requires off < |out|
    ensures CopyBack(out, off, n) == if n == 0 then out else CopyBack([out[off]] + out, off, n - 1)
  {
  }

  /** The copy loop for a back reference. */
  method CopyRun(mem: array<byte>, v2: nat, off: nat, len: nat, ghost was: seq<byte>, ghost top: nat,
                 ghost out: seq<byte>)
    returns (w: nat, ret: byte)
    requires Filled(was, mem[..], top, out) && v2 == top - |out| && off < |out| && 1 <= len <= v2
    modifies mem
    ensures w == v2 - len && Filled(was, mem[..], top, CopyBack(out, off, len))
    ensures ret == CopyBack(out, off, len)[0]
  {
    hide Filled, CopyBack;
    w := v2;
    var left := len;
    ghost var o := out;
    CopyStep(was, mem[..], top, out, off);
    ret := mem[w + off];
    while left > 0
      invariant left <= len && w == v2 - (len - left) == top - |o| && off < |o|
      invariant |was| == mem.Length && Filled(was, mem[..], top, o)
      invariant CopyBack(o, off, left) == CopyBack(out, off, len)
      invariant left < len ==> ret == o[0]
    {
      CopyStep(was, mem[..], top, o, off);
      ret := mem[w + off];
      ghost var before := mem[..];
      mem[w - 1] := ret;
      assert mem[..] == before[w - 1 := ret];
      CopyBackStep(o, off, left);
      o := [ret] + o;
      w, left := w - 1, left - 1;
    }
    CopyBackStep(o, off, 0);
  }

  /** What is left of the stream at cursor r can be put in front of out in place, and gives want. */
  ghost predicate Goes(m: seq<byte>, r: int, stop: int, flags: byte, left: nat, out: seq<byte>, top: nat,
                       want: seq<byte>) {
    var s := Parse(m, r, stop, flags, left);
    RefsOk(s, |out|) && Apart(s, |out|, top) && Expand(s, out) == want
  }

  lemma FlagsGo(m: seq<byte>, r: int, stop: int, out: seq<byte>, top: nat, want: seq<byte>)
    requires Goes(m, r, stop, 0, 0, out, top, want)
    ensures r > stop ==> 0 < r && Goes(m, r - 1, stop, At(m, r - 1), 8, out, top, want)
    ensures r <= stop ==> out == want
  {
    if r > stop {
      assert Parse(m, r, stop, 0, 0) == Parse(m, r - 1, stop, At(m, r - 1), 8);
      assert Parse(m, r - 1, stop, At(m, r - 1), 8)[0].cur < r;
    }
  }

  lemma TokenGoes(m: seq<byte>, r: int, stop: int, flags: byte, left: nat, out: seq<byte>, top: nat, want: seq<byte>)
    requires Goes(m, r, stop, flags, left, out, top, want) && left > 0
    ensures var s := TokenAt(m, r, flags >= 0x80);
      && 0 <= s.cur <= top - |out| - Len(s.tok) && (s.tok.Back? ==> s.tok.off < |out|)
      && if s.cur > stop then Goes(m, s.cur, stop, flags as int * 2 % 0x100, left - 1, Put(out, s.tok), top, want)
         else Put(out, s.tok) == want
  {
    var s, steps := TokenAt(m, r, flags >= 0x80), Parse(m, r, stop, flags, left);
    assert steps[0] == s;
    if s.cur > stop {
      assert steps[1..] == Parse(m, s.cur, stop, flags as int * 2 % 0x100, left - 1);
    } else {
      assert steps[1..] == [];
      assert Expand(steps, out) == Expand([], Put(out, s.tok));
    }
  }

  /** One token read at r and put out at v2. */
  method PutToken(mem: array<byte>, v2: nat, r: nat, back: bool, ghost was: seq<byte>, ghost top: nat,
                  ghost out: seq<byte>)
    returns (w: nat, cur: nat, ret: byte)
    requires Filled(was, mem[..], top, out) && v2 == top - |out| && r <= v2
    requires var s := TokenAt(was, r, back);
      0 <= s.cur <= v2 - Len(s.tok) && (s.tok.Back? ==> s.tok.off < |out|)
    modifies mem
    ensures cur == TokenAt(was, r, back).cur < r
    ensures var now := Put(out, TokenAt(was, r, back).tok);
      Filled(was, mem[..], top, now) && w == top - |now| && ret == now[0]
  {
    hide Filled, CopyBack;
    FilledAt(was, mem[..], top, out);
    assert r - 1 < mem.Length && mem[..][r - 1] == mem[r - 1];
    if back {
      assert mem[..][r - 2] == mem[r - 2];
      var v12, v14 := mem[r - 1] as int, mem[r - 2] as int;
      cur := r - 2;
      w, ret := CopyRun(mem, v2, v12 % 0x10 * 0x100 + v14 + 2, v12 / 0x10 + 3, was, top, out);
    } else {
      ret := mem[r - 1];
      cur := r - 1;
      ghost var before := mem[..];
      FillOne(was, before, top, out, ret);
      mem[v2 - 1] := ret;
      assert mem[..] == before[v2 - 1 := ret];
      w := v2 - 1;
    }
  }

  /** The tokens of one flag byte: up to eight of them, fewer at the end of the stream. */
  method FlagRun(mem: array<byte>, v2: nat, v3: nat, v4: int, flags: byte, ghost was: seq<byte>, ghost top: nat,
                 ghost out: seq<byte>, ghost want: seq<byte>) returns (w: nat, r: nat, ret: byte, ghost now: seq<byte>)
    requires Filled(was, mem[..], top, out) && v2 == top - |out| && v3 <= v2
    requires Goes(was, v3, v4, flags, 8, out, top, want)
    modifies mem
    ensures Filled(was, mem[..], top, now) && w == top - |now| && r <= w && r < v3 && |now| > 0 && ret == now[0]
    ensures if r > v4 then Goes(was, r, v4, 0, 0, now, top, want) else now == want
  {
    hide Filled, Goes, Put, TokenAt, Parse, Expand, RefsOk, Apart;
    var v5: int, v7 := flags, 8;
    w, r, ret, now := v2, v3, 0, out;
    while v7 > 0
      invariant 0 <= v5 < 0x100 && Filled(was, mem[..], top, now) && w == top - |now| && r <= w
      invariant v7 < 8 ==> r < v3 && |now| > 0 && ret == now[0] && r > v4
      invariant v7 == 8 ==> r == v3
      invariant Goes(was, r, v4, v5, v7, now, top, want)
    {
      v7 := v7 - 1;
      TokenGoes(was, r, v4, v5, v7 + 1, now, top, want);
      ghost var t := TokenAt(was, r, v5 >= 0x80).tok;
      w, r, ret := PutToken(mem, w, r, v5 >= 0x80, was, top, now);
      now := Put(now, t);
      v5 := v5 * 2 % 0x100;
      if r <= v4 {
        return;
      }
    }
    FlagsRunOut(was, r, v4, v5, now, top, want);
  }

  /** Once its eight bits are used up, it does not matter what the flag byte was. */
  lemma FlagsRunOut(m: seq<byte>, r: int, stop: int, flags: byte, out: seq<byte>, top: nat, want: seq<byte>)
    requires Goes(m, r, stop, flags, 0, out, top, want)
    ensures Goes(m, r, stop, 0, 0, out, top, want)
  {
    assert Parse(m, r, stop, flags, 0) == Parse(m, r, stop, 0, 0);
  }

  /** lzss_decompress: decompresses in place and returns the last byte written. */
  method LzssDecompress(mem: array<byte>, end: nat) returns (ret: byte)
    requires end != 0 ==> InPlace(mem[..], end)
    modifies mem
    ensures end == 0 ==> ret == 0 && mem[..] == old(mem[..])
    ensures end != 0 ==> Filled(old(mem[..]), mem[..], Top(old(mem[..]), end), Output(old(mem[..]), end))
    ensures end != 0 ==> ret == if Output(old(mem[..]), end) == [] then 0 else Output(old(mem[..]), end)[0]
  {
    hide Goes, Filled, Parse, Expand, RefsOk, Apart;
    ret := 0;
    if end == 0 {
      return;
    }
    ghost var was, out: seq<byte> := mem[..], [];
    ghost var top, want := Top(was, end), Output(was, end);
    var v1 := LdDword(mem[..], end - 8);
    var v2 := end + LdDword(mem[..], end - 4);
    var v3, v4 := end - v1 / 0x100_0000, end - v1 % 0x100_0000;
    StreamGoes(was, end);
    FlagsGo(was, v3, v4, out, top, want);
    while v3 > v4
      invariant Filled(was, mem[..], top, out) && v2 == top - |out| && v3 <= v2
      invariant if v3 > v4 then v3 > 0 && Goes(was, v3, v4, 0, 0, out, top, want) else out == want
      invariant ret == if out == [] then 0 else out[0]
    {
      FlagsGo(was, v3, v4, out, top, want);
      FilledAt(was, mem[..], top, out);
      v3 := v3 - 1;
      var v6 := mem[v3];
      v2, v3, ret, out := FlagRun(mem, v2, v3, v4, v6, was, top, out, want);
      if v3 > v4 {
        FlagsGo(was, v3, v4, out, top, want);
      }
    }
  }

  lemma StreamGoes(m: seq<byte>, end: nat)
    requires InPlace(m, end)
    ensures Goes(m, Start(m, end), Stop(m, end), 0, 0, [], Top(m, end), Output(m, end)) && Filled(m, m, Top(m, end), [])
  {
  }

  /** A back reference repeats the output off + 1 places further on, even where it overlaps what it writes. */
  lemma {:induction false} CopyBackAt(out: seq<byte>, off: nat, n: nat, k: nat)
    requires off < |out| && k < n
    ensures CopyBack(out, off, n)[k] == CopyBack(out, off, n)[k + off + 1]
    decreases n
  {
    if k == n - 1 {
      var r := CopyBack([out[off]] + out, off, n - 1);
      assert r[n - 1..][0] == r[n - 1] && r[n - 1..][off + 1] == r[n + off];
    } else {
      CopyBackAt([out[off]] + out, off, n - 1, k);
    }
  }

  // ---------- what is overwritten ----------

  /** Number of bytes that the tokens put out. */
  function Total(steps: seq<Step>): nat {
    if steps == [] then 0 else Len(steps[0].tok) + Total(steps[1..])
  }

  lemma {:induction false} ExpandLength(steps: seq<Step>, out: seq<byte>)
    requires RefsOk(steps, |out|)
    ensures |Expand(steps, out)| == |out| + Total(steps)
    decreases |steps|
  {
    if steps != [] {
      ExpandLength(steps[1..], Put(out, steps[0].tok));
    }
  }

  lemma {:induction false} StaysInMemory(steps: seq<Step>, n: nat, top: nat)
    requires Apart(steps, n, top) && n <= top
    ensures n + Total(steps) <= top
    decreases |steps|
  {
    if steps != [] {
      StaysInMemory(steps[1..], n + Len(steps[0].tok), top);
    }
  }

  /** Decompression writes the place k. */
  predicate Writes(m: seq<byte>, end: nat, k: nat)
    requires InPlace(m, end)
  {
    Top(m, end) - |Output(m, end)| <= k < Top(m, end)
  }

  /**
   The decoder writes nothing below the start of the compressed bytes exactly when the tokens put out no more
   bytes than there are from that start up to the top.
   */
  lemma BelowUntouchedIff(m: seq<byte>, end: nat)
    requires InPlace(m, end)
    ensures (forall k: nat | k < Stop(m, end) :: !Writes(m, end, k)) <==>
      Total(Stream(m, end)) <= Top(m, end) - Stop(m, end)
  {
    hide Parse, Expand;
    var s, w := Stream(m, end), Top(m, end) - Total(Stream(m, end));
    ExpandLength(s, []);
    StaysInMemory(s, 0, Top(m, end));
    if w < Stop(m, end) {
      assert Writes(m, end, w);
    }
  }

  /** Then memory below the compressed bytes, and from the top on, is as before. */
  lemma BelowUntouched(m: seq<byte>, end: nat, now: seq<byte>)
    requires InPlace(m, end) && 0 <= Stop(m, end) && Total(Stream(m, end)) <= Top(m, end) - Stop(m, end)
    requires Filled(m, now, Top(m, end), Output(m, end))
    ensures now[..Stop(m, end)] == m[..Stop(m, end)] && now[Top(m, end)..] == m[Top(m, end)..]
  {
    hide Parse, Expand;
    ExpandLength(Stream(m, end), []);
  }

  /** No token is read from below the start of the compressed bytes. */
  predicate Complete(steps: seq<Step>, stop: int) {
    forall k | 0 <= k < |steps| :: steps[k].cur >= stop
  }

  lemma {:induction false} EndsAbove(steps: seq<Step>, n: nat, top: nat)
    requires Apart(steps, n, top) && steps != []
    ensures n + Total(steps) <= top - steps[|steps| - 1].cur
    decreases |steps|
  {
    if |steps| == 1 {
      assert Total(steps[1..]) == 0;
    } else {
      EndsAbove(steps[1..], n + Len(steps[0].tok), top);
    }
  }

  /** A stream whose tokens all lie in the compressed bytes puts out no more than that. */
  lemma CompleteFits(m: seq<byte>, end: nat)
    requires InPlace(m, end) && Complete(Stream(m, end), Stop(m, end))
    ensures Total(Stream(m, end)) <= Top(m, end) - Stop(m, end)
  {
    hide Parse;
    if Stream(m, end) != [] {
      EndsAbove(Stream(m, end), 0, Top(m, end));
    }
  }

  /** All tokens but the last are read above the start, and the last one from no further than two bytes below it. */
  predicate NearStop(steps: seq<Step>, stop: int) {
    && steps != [] && steps[|steps| - 1].cur >= stop - 2
    && (steps[|steps| - 1].cur == stop - 2 ==> steps[|steps| - 1].tok.Back?)
    && forall k | 0 <= k < |steps| - 1 :: steps[k].cur > stop
  }

  lemma NearStopMore(s: Step, rest: seq<Step>, stop: int)
    requires s.cur > stop && NearStop(rest, stop)
    ensures NearStop([s] + rest, stop)
  {
    assert forall k | 1 <= k <= |rest| :: ([s] + rest)[k] == rest[k - 1];
  }

  /**
   Only the last token can be read across the start: its two bytes may lie there if its flag byte is the lowest
   of the compressed bytes, and otherwise one of them.
   */
  lemma {:induction false} EndsNearStop(m: seq<byte>, r: int, stop: int, flags: byte, left: nat)
    requires left <= 8 && (r > stop || (left == 8 && r == stop))
    ensures NearStop(Parse(m, r, stop, flags, left), stop)
    decreases r - stop, 8 - left
  {
    hide NearStop, Parse, TokenAt;
    ParseStep(m, r, stop, flags, left);
    if left == 0 {
      EndsNearStop(m, r - 1, stop, At(m, r - 1), 8);
    } else {
      var s := TokenAt(m, r, flags >= 0x80);
      CursorMoves(m, r, flags >= 0x80);
      if s.cur > stop {
        EndsNearStop(m, s.cur, stop, flags as int * 2 % 0x100, left - 1);
        NearStopMore(s, Parse(m, s.cur, stop, flags as int * 2 % 0x100, left - 1), stop);
      } else {
        OneNearStop(s, stop);
      }
    }
  }

  lemma CursorMoves(m: seq<byte>, r: int, back: bool)
    ensures var s := TokenAt(m, r, back); s.cur == (if back then r - 2 else r - 1) && (s.tok.Back? <==> back)
  {
  }

  lemma OneNearStop(s: Step, stop: int)
    requires s.cur >= stop - 2 && (s.cur == stop - 2 ==> s.tok.Back?)
    ensures NearStop([s] + [], stop)
  {
  }

  /**
   Where memory below the compressed bytes is not left alone, it is at most the two bytes right below them, and
   only those that the last token was read from.
   */
  lemma BelowByTwo(m: seq<byte>, end: nat, k: nat)
    requires InPlace(m, end) && k < Stop(m, end) && Writes(m, end, k)
    ensures var s := Stream(m, end); s != [] && Stop(m, end) - 2 <= s[|s| - 1].cur <= k
  {
    hide Parse, Expand, RefsOk, Apart;
    var s := Stream(m, end);
    ExpandLength(s, []);
    if Start(m, end) <= Stop(m, end) {
      NoTokens(m, Start(m, end), Stop(m, end), 0);
    } else {
      EndsNearStop(m, Start(m, end), Stop(m, end), 0, 0);
      EndsAbove(s, 0, Top(m, end));
    }
  }

  lemma NoTokens(m: seq<byte>, r: int, stop: int, flags: byte)
    requires r <= stop
    ensures Parse(m, r, stop, flags, 0) == []
  {
  }

  // ---------- a stream that crosses the start of its bytes ----------

  function Crossing(): seq<byte> {
    [9, 9, 9, 9, 9, 9, 9, 9, 9, 9, 9, 9, 9, 9, 9, 0, 0x80, 3, 2, 1, 0x10, 13, 0, 0, 8, 0, 0, 0, 0]
  }

  lemma CrossingBytes()
    ensures var m := Crossing();
      && |m| == 29 && At(m, 15) == 0 && At(m, 16) == 0x80 && At(m, 17) == 3
      && At(m, 18) == 2 && At(m, 19) == 1 && At(m, 20) == 0x10
      && LdDword(m, 21) == 0x0800_000D && LdDword(m, 25) == 0
  {
  }

  lemma ParseStep(m: seq<byte>, r: int, stop: int, flags: byte, left: nat)
    ensures left == 0 && r > stop ==> Parse(m, r, stop, flags, left) == Parse(m, r - 1, stop, At(m, r - 1), 8)
    ensures left > 0 ==> var s := TokenAt(m, r, flags >= 0x80);
      Parse(m, r, stop, flags, left) ==
      [s] + (if s.cur <= stop then [] else Parse(m, s.cur, stop, flags as int * 2 % 0x100, left - 1))
  {
  }

  /** The tokens of the stream, each in front of the ones after it. */
  function Tokens(): seq<Step> {
    [Step(Literal(1), 19)] + ([Step(Literal(2), 18)] + ([Step(Literal(3), 17)] + ([Step(Back(2, 11), 15)] + [])))
  }

  lemma CrossingStream()
    ensures var m := Crossing();
      |m| == 29 && Start(m, 29) == 21 && Stop(m, 29) == 16 && Top(m, 29) == 29 && Stream(m, 29) == Tokens()
  {
    hide Parse, Crossing, At, LdDword;
    var m := Crossing();
    CrossingBytes();
    ParseStep(m, 21, 16, 0, 0);
    ParseStep(m, 20, 16, 0x10, 8);
    ParseStep(m, 19, 16, 0x20, 7);
    ParseStep(m, 18, 16, 0x40, 6);
    ParseStep(m, 17, 16, 0x80, 5);
  }

  lemma FirstStep(x: Step, rest: seq<Step>, out: seq<byte>, top: nat)
    ensures RefsOk([x] + rest, |out|) <==> (x.tok.Back? ==> x.tok.off < |out|) && RefsOk(rest, |out| + Len(x.tok))
    ensures Apart([x] + rest, |out|, top) <==>
      0 <= x.cur <= top - |out| - Len(x.tok) && Apart(rest, |out| + Len(x.tok), top)
    ensures RefsOk([x] + rest, |out|) ==> Expand([x] + rest, out) == Expand(rest, Put(out, x.tok))
  {
    hide Put;
    assert ([x] + rest)[1..] == rest;
  }

  lemma NothingLeft(out: seq<byte>, top: nat)
    ensures Expand([], out) == out && RefsOk([], |out|) && Apart([], |out|, top)
  {
  }

  /** The tokens can be put out in place below 29, and 2 is the byte that comes to lie lowest. */
  lemma TokensPut()
    ensures RefsOk(Tokens(), 0) && Apart(Tokens(), 0, 29)
    ensures var out := Expand(Tokens(), []); |out| == 14 && out[0] == 2
  {
    hide CopyBack, Expand, RefsOk, Apart;
    var o1: seq<byte>, o2: seq<byte>, o3: seq<byte> := [1], [2, 1], [3, 2, 1];
    var r := CopyBack(o3, 2, 11);
    var t4 := [Step(Back(2, 11), 15)] + [];
    var t3 := [Step(Literal(3), 17)] + t4;
    var t2 := [Step(Literal(2), 18)] + t3;
    NothingLeft(r, 29);
    FirstStep(Step(Back(2, 11), 15), [], o3, 29);
    FirstStep(Step(Literal(3), 17), t4, o2, 29);
    FirstStep(Step(Literal(2), 18), t3, o1, 29);
    FirstStep(Step(Literal(1), 19), t2, [], 29);
    assert [1] + [] == o1 && [2] + o1 == o2 && [3] + o2 == o3;
    CopyBackAt(o3, 2, 11, 0);
    CopyBackAt(o3, 2, 11, 3);
    CopyBackAt(o3, 2, 11, 6);
    CopyBackAt(o3, 2, 11, 9);
    assert r[11..][1] == 2;
  }

  /**
   That the write cursor stays above the read cursor and that references hit written bytes is not enough: here both
   hold, and the byte below the compressed ones, a zero, is overwritten with a 2.
   */
  lemma BelowOverwritten()
    ensures var m := Crossing();
      InPlace(m, 29) && Stop(m, 29) == 16 && Writes(m, 29, 15) && m[15] == 0 && Output(m, 29)[0] == 2
  {
    hide Parse, Expand, Tokens, RefsOk, Apart;
    CrossingBytes();
    CrossingStream();
    TokensPut();
  }

  // ---------- a stream that crosses it by two bytes ----------

  /** Eight literals, and a back reference whose flag byte is the lowest of the compressed bytes. */
  function Deeper(): seq<byte> {
    [0, 0x90, 0x80, 8, 7, 6, 5, 4, 3, 2, 1, 0, 18, 0, 0, 8, 0, 0, 0, 0]
  }

  lemma DeeperBytes()
    ensures var m := Deeper();
      && |m| == 20 && At(m, 0) == 0 && At(m, 1) == 0x90 && At(m, 2) == 0x80 && At(m, 11) == 0
      && (forall i | 3 <= i <= 10 :: At(m, i) == 11 - i)
      && LdDword(m, 12) == 0x0800_0012 && LdDword(m, 16) == 0
  {
  }

  /** The literals from the n-th on, and the back reference. */
  function DeeperTokens(n: nat): seq<Step>
    requires 1 <= n <= 9
    decreases 9 - n
  {
    if n == 9 then [Step(Back(2, 12), 0)] else [Step(Literal(n), 11 - n)] + DeeperTokens(n + 1)
  }

  lemma {:induction false} DeeperParsed(n: nat)
    requires 1 <= n <= 8
    ensures Parse(Deeper(), 12 - n, 2, 0, 9 - n) == DeeperTokens(n)
    decreases 8 - n
  {
    hide Parse, Deeper, At;
    var m := Deeper();
    DeeperBytes();
    ParseStep(m, 12 - n, 2, 0, 9 - n);
    if n < 8 {
      DeeperParsed(n + 1);
    } else {
      ParseStep(m, 3, 2, 0, 0);
      ParseStep(m, 2, 2, 0x80, 8);
      assert [Step(Back(2, 12), 0)] + [] == [Step(Back(2, 12), 0)];
    }
  }

  /** The n literals put out so far. */
  function Counted(n: nat): (r: seq<byte>)
    requires n <= 8
    ensures |r| == n && forall i | 0 <= i < n :: r[i] == n - i
  {
    if n == 0 then [] else [n] + Counted(n - 1)
  }

  lemma {:induction false} DeeperPut(n: nat)
    requires 1 <= n <= 9
    ensures RefsOk(DeeperTokens(n), n - 1) && Apart(DeeperTokens(n), n - 1, 20)
    ensures Expand(DeeperTokens(n), Counted(n - 1)) == CopyBack(Counted(8), 2, 12)
    decreases 9 - n
  {
    hide CopyBack, Expand, RefsOk, Apart;
    if n == 9 {
      var r := CopyBack(Counted(8), 2, 12);
      NothingLeft(r, 20);
      FirstStep(Step(Back(2, 12), 0), [], Counted(8), 20);
      assert [Step(Back(2, 12), 0)] + [] == [Step(Back(2, 12), 0)];
    } else {
      DeeperPut(n + 1);
      FirstStep(Step(Literal(n), 11 - n), DeeperTokens(n + 1), Counted(n - 1), 20);
    }
  }

  /** Both bytes below the compressed ones can be overwritten: a 0 and a 0x90 with an 8 and a 7. */
  lemma TwoOverwritten()
    ensures var m := Deeper();
      && InPlace(m, 20) && Stop(m, 20) == 2 && Writes(m, 20, 0) && Writes(m, 20, 1)
      && m[..2] == [0, 0x90] && Output(m, 20)[..2] == [8, 7]
  {
    hide Parse, Expand, RefsOk, Apart, CopyBack, Deeper, DeeperTokens, LdDword;
    var m, r := Deeper(), CopyBack(Counted(8), 2, 12);
    DeeperBytes();
    ParseStep(m, 12, 2, 0, 0);
    DeeperParsed(1);
    assert Stream(m, 20) == DeeperTokens(1);
    DeeperPut(1);
    assert Output(m, 20) == r;
    SameThree(r);
  }

  lemma SameThree(r: seq<byte>)
    requires r == CopyBack(Counted(8), 2, 12)
    ensures |r| == 20 && r[..2] == [8, 7]
  {
    hide CopyBack;
    assert r[12] == r[12..][0] && r[13] == r[12..][1];
    CopyBackAt(Counted(8), 2, 12, 0);
    CopyBackAt(Counted(8), 2, 12, 3);
    CopyBackAt(Counted(8), 2, 12, 6);
    CopyBackAt(Counted(8), 2, 12, 9);
    CopyBackAt(Counted(8), 2, 12, 1);
    CopyBackAt(Counted(8), 2, 12, 4);
    CopyBackAt(Counted(8), 2, 12, 7);
    CopyBackAt(Counted(8), 2, 12, 10);
  }

  // ---------- packing ----------

  /** A token that the format has: offsets have 12 bits and lengths 4, less the least of each. */
  predicate TokOk(tok: Token) { tok.Back? ==> 2 <= tok.off < 0x1002 && 3 <= tok.len <= 18 }

  /** The bytes of a token, the one that is read first last. */
  function Packed(tok: Token): (bs: seq<byte>)
    requires TokOk(tok)
  {
    match tok
    case Literal(b) => [b]
    case Back(off, len) => [(off - 2) % 0x100, (len - 3) * 16 + (off - 2) / 0x100]
  }

  /** The i-th token, if there is one, is a back reference. */
  function Bit(toks: seq<Token>, i: nat): nat { if i < |toks| && toks[i].Back? then 1 else 0 }

  /** The flag byte of the next eight tokens, the first in the highest bit. */
  function Flags(toks: seq<Token>): byte {
    0x80 * Bit(toks, 0) + 0x40 * Bit(toks, 1) + 0x20 * Bit(toks, 2) + 0x10 * Bit(toks, 3)
    + 8 * Bit(toks, 4) + 4 * Bit(toks, 5) + 2 * Bit(toks, 6) + Bit(toks, 7)
  }

  /** The bytes of tokens and flags, from the last one read to the first; left bits of the current flags remain. */
  function Encoded(toks: seq<Token>, left: nat): (bs: seq<byte>)
    requires forall t | t in toks :: TokOk(t)
    decreases |toks|, 8 - left
  {
    if toks == [] then []
    else if left == 0 then Encoded(toks, 8) + [Flags(toks)]
    else Encoded(toks[1..], left - 1) + Packed(toks[0])
  }

  /** A bit of the current flags that is still to come. */
  function Left(toks: seq<Token>, left: nat, i: nat): nat { if i < left then Bit(toks, i) else 0 }

  function Byte(x0: nat, x1: nat, x2: nat, x3: nat, x4: nat, x5: nat, x6: nat, x7: nat): nat {
    0x80 * x0 + 0x40 * x1 + 0x20 * x2 + 0x10 * x3 + 8 * x4 + 4 * x5 + 2 * x6 + x7
  }

  /** What is left of a flag byte once 8 - left of its bits have been shifted out. */
  function FlagsLeft(toks: seq<Token>, left: nat): byte {
    LeftBits(toks, left);
    Byte(Left(toks, left, 0), Left(toks, left, 1), Left(toks, left, 2), Left(toks, left, 3),
         Left(toks, left, 4), Left(toks, left, 5), Left(toks, left, 6), Left(toks, left, 7))
  }

  lemma LeftBits(toks: seq<Token>, left: nat)
    ensures forall i: nat :: Left(toks, left, i) <= 1
  {
  }

  lemma HighBit(b: nat, x0: nat, rest: nat)
    requires 2 * b == 0x100 * x0 + rest && x0 <= 1 && rest < 0x100
    ensures (b >= 0x80 <==> x0 == 1) && b * 2 % 0x100 == rest
  {
  }

  lemma Shifted(x0: nat, x1: nat, x2: nat, x3: nat, x4: nat, x5: nat, x6: nat, x7: nat)
    requires x0 <= 1 && x1 <= 1 && x2 <= 1 && x3 <= 1 && x4 <= 1 && x5 <= 1 && x6 <= 1 && x7 <= 1
    ensures Byte(x0, x1, x2, x3, x4, x5, x6, x7) >= 0x80 <==> x0 == 1
    ensures Byte(x0, x1, x2, x3, x4, x5, x6, x7) * 2 % 0x100 == Byte(x1, x2, x3, x4, x5, x6, x7, 0)
  {
    HighBit(Byte(x0, x1, x2, x3, x4, x5, x6, x7), x0, Byte(x1, x2, x3, x4, x5, x6, x7, 0));
  }

  lemma NextBit(toks: seq<Token>, left: nat, i: nat)
    requires 0 < left && toks != []
    ensures Left(toks, left, i + 1) == Left(toks[1..], left - 1, i)
  {
  }

  lemma OuterBits(toks: seq<Token>, left: nat)
    requires 0 < left <= 8 && toks != []
    ensures (Left(toks, left, 0) == 1 <==> toks[0].Back?) && Left(toks[1..], left - 1, 7) == 0
  {
  }

  lemma FlagsShift(toks: seq<Token>, left: nat)
    requires 0 < left <= 8 && toks != []
    ensures FlagsLeft(toks, left) >= 0x80 <==> toks[0].Back?
    ensures FlagsLeft(toks, left) as int * 2 % 0x100 == FlagsLeft(toks[1..], left - 1)
  {
    hide Left, Byte;
    LeftBits(toks, left);
    OuterBits(toks, left);
    NextBit(toks, left, 0);
    NextBit(toks, left, 1);
    NextBit(toks, left, 2);
    NextBit(toks, left, 3);
    NextBit(toks, left, 4);
    NextBit(toks, left, 5);
    NextBit(toks, left, 6);
    Shifted(Left(toks, left, 0), Left(toks, left, 1), Left(toks, left, 2), Left(toks, left, 3),
            Left(toks, left, 4), Left(toks, left, 5), Left(toks, left, 6), Left(toks, left, 7));
  }

  function Toks(steps: seq<Step>): (r: seq<Token>)
    ensures |r| == |steps|
  {
    seq(|steps|, i requires 0 <= i < |steps| => steps[i].tok)
  }

  /** A token is read back from its bytes. */
  lemma TokenBack(m: seq<byte>, r: nat, tok: Token)
    requires TokOk(tok) && |Packed(tok)| <= r <= |m| && m[r - |Packed(tok)|..r] == Packed(tok)
    ensures TokenAt(m, r, tok.Back?) == Step(tok, r - |Packed(tok)|)
  {
    var bs := m[r - |Packed(tok)|..r];
    assert bs[|bs| - 1] == m[r - 1];
    if tok.Back? {
      assert bs[0] == m[r - 2];
    }
  }

  /** One token of the stream, and where the rest of it is. */
  lemma ParsesToken(m: seq<byte>, r: nat, stop: nat, toks: seq<Token>, left: nat, flags: byte) returns (q: nat)
    requires stop <= r <= |m| && 0 < left <= 8 && toks != [] && (forall t | t in toks :: TokOk(t))
    requires m[stop..r] == Encoded(toks, left) && flags == FlagsLeft(toks, left)
    ensures stop <= q < r && (forall t | t in toks[1..] :: TokOk(t)) && (q == stop <==> toks[1..] == [])
    ensures m[stop..q] == Encoded(toks[1..], left - 1) && flags as int * 2 % 0x100 == FlagsLeft(toks[1..], left - 1)
    ensures Parse(m, r, stop, flags, left) ==
      [Step(toks[0], q)] + (if q == stop then [] else Parse(m, q, stop, flags as int * 2 % 0x100, left - 1))
  {
    hide Parse, Packed, Flags, FlagsLeft, TokenAt, Encoded;
    EncodedToken(toks, left);
    PackedSome(toks[0]);
    var bs, es, ps := m[stop..r], Encoded(toks[1..], left - 1), Packed(toks[0]);
    q := r - |ps|;
    assert bs == es + ps && |es| == q - stop;
    assert m[q..r] == bs[|es|..] && m[stop..q] == bs[..|es|];
    TokenBack(m, r, toks[0]);
    FlagsShift(toks, left);
    ParseStep(m, r, stop, flags, left);
    if toks[1..] == [] {
      EncodedNone(left - 1);
    } else {
      EncodedSome(toks[1..], left - 1);
    }
  }

  /** Every list of tokens is read back from the stream made of it. */
  lemma {:induction false} ParsesBack(m: seq<byte>, r: nat, stop: nat, toks: seq<Token>, left: nat, flags: byte)
    requires stop <= r <= |m| && left <= 8 && (forall t | t in toks :: TokOk(t)) && m[stop..r] == Encoded(toks, left)
    requires left > 0 ==> toks != [] && flags == FlagsLeft(toks, left)
    ensures Toks(Parse(m, r, stop, flags, left)) == toks && Complete(Parse(m, r, stop, flags, left), stop)
    decreases |toks|, 8 - left
  {
    hide Parse, Flags, FlagsLeft, Encoded, Toks, Complete;
    if toks == [] {
      EncodedNone(left);
      NoTokens(m, r, stop, flags);
      NoSteps(stop);
    } else if left == 0 {
      EncodedFlags(toks);
      var bs := m[stop..r];
      assert bs[|bs| - 1] == m[r - 1] && bs[..|bs| - 1] == m[stop..r - 1];
      ParseStep(m, r, stop, flags, 0);
      AllFlags(toks);
      ParsesBack(m, r - 1, stop, toks, 8, m[r - 1]);
    } else {
      var q := ParsesToken(m, r, stop, toks, left, flags);
      var rest := if q == stop then [] else Parse(m, q, stop, flags as int * 2 % 0x100, left - 1);
      if q == stop {
        NoSteps(stop);
      } else {
        ParsesBack(m, q, stop, toks[1..], left - 1, flags as int * 2 % 0x100);
      }
      StepsMore(Step(toks[0], q), rest, stop);
      assert [toks[0]] + toks[1..] == toks;
    }
  }

  lemma NoSteps(stop: int)
    ensures Toks([]) == [] && Complete([], stop)
  {
  }

  lemma StepsMore(s: Step, rest: seq<Step>, stop: int)
    ensures Toks([s] + rest) == [s.tok] + Toks(rest)
    ensures Complete(rest, stop) && s.cur >= stop ==> Complete([s] + rest, stop)
  {
    assert forall k | 0 < k <= |rest| :: ([s] + rest)[k] == rest[k - 1];
  }

  lemma EncodedNone(left: nat)
    ensures Encoded([], left) == []
  {
  }

  lemma EncodedToken(toks: seq<Token>, left: nat)
    requires (forall t | t in toks :: TokOk(t)) && toks != [] && left > 0
    ensures toks[0] in toks && (forall t | t in toks[1..] :: TokOk(t))
    ensures Encoded(toks, left) == Encoded(toks[1..], left - 1) + Packed(toks[0])
  {
    hide Packed, Flags;
  }

  lemma PackedSome(tok: Token)
    requires TokOk(tok)
    ensures |Packed(tok)| > 0
  {
  }

  lemma AllFlags(toks: seq<Token>)
    ensures Flags(toks) == FlagsLeft(toks, 8)
  {
    hide Bit;
  }

  lemma EncodedFlags(toks: seq<Token>)
    requires (forall t | t in toks :: TokOk(t)) && toks != []
    ensures Encoded(toks, 0) == Encoded(toks, 8) + [Flags(toks)]
  {
  }

  lemma {:induction false} EncodedSome(toks: seq<Token>, left: nat)
    requires (forall t | t in toks :: TokOk(t)) && toks != []
    ensures |Encoded(toks, left)| > 0
  {
    hide Packed, Flags;
    PackedSome(toks[0]);
  }

  // ---------- modules made of tokens ----------

  /** The tokens as steps; what they put out does not depend on where they were read. */
  function Steps(toks: seq<Token>): (r: seq<Step>)
    ensures |r| == |toks|
  {
    seq(|toks|, i requires 0 <= i < |toks| => Step(toks[i], 0))
  }

  lemma {:induction false} SameTokens(a: seq<Step>, b: seq<Step>, out: seq<byte>)
    requires Toks(a) == Toks(b)
    ensures RefsOk(a, |out|) <==> RefsOk(b, |out|)
    ensures RefsOk(a, |out|) ==> Expand(a, out) == Expand(b, out)
    ensures Total(a) == Total(b)
    decreases |a|
  {
    hide Put;
    if a != [] {
      assert Toks(a)[0] == a[0].tok && Toks(b)[0] == b[0].tok;
      assert Toks(a[1..]) == Toks(a)[1..] && Toks(b[1..]) == Toks(b)[1..];
      var next := if a[0].tok.Back? ==> a[0].tok.off < |out| then Put(out, a[0].tok)
                  else seq(|out| + Len(a[0].tok), _ => 0);
      SameTokens(a[1..], b[1..], next);
    }
  }

  /** A number in four bytes, lowest first. */
  function Word(n: nat): seq<byte> {
    [n % 0x100, n / 0x100 % 0x100, n / 0x1_0000 % 0x100, n / 0x100_0000 % 0x100]
  }

  /** A module: something below, the stream, its size with the footer's in front, the size gained, and room for it. */
  function Module(low: seq<byte>, toks: seq<Token>, room: nat): seq<byte>
    requires forall t | t in toks :: TokOk(t)
  {
    low + Encoded(toks, 0) + Word(0x0800_0000 + |Encoded(toks, 0)| + 8) + Word(room) + seq(room, _ => 0)
  }

  /** Where a module ends before it is unpacked. */
  function End(low: seq<byte>, toks: seq<Token>): nat
    requires forall t | t in toks :: TokOk(t)
  {
    |low| + |Encoded(toks, 0)| + 8
  }

  lemma WordBack(m: seq<byte>, i: nat, n: nat)
    requires i + 4 <= |m| && n < 0x1_0000_0000 && m[i..i + 4] == Word(n)
    ensures LdDword(m, i) == n
  {
    assert m[i..i + 4][0] == m[i] && m[i..i + 4][1] == m[i + 1];
    assert m[i..i + 4][2] == m[i + 2] && m[i..i + 4][3] == m[i + 3];
    FourBytes(n);
  }

  lemma FourBytes(n: nat)
    requires n < 0x1_0000_0000
    ensures n == n % 0x100 + 0x100 * (n / 0x100 % 0x100) + 0x1_0000 * (n / 0x1_0000 % 0x100)
              + 0x100_0000 * (n / 0x100_0000 % 0x100)
  {
    var a, b, c := n / 0x100, n / 0x1_0000, n / 0x100_0000;
    assert n == 0x100 * a + n % 0x100 && a == 0x100 * b + a % 0x100 && b == 0x100 * c + b % 0x100 && c < 0x100;
  }

  lemma ModuleParts(low: seq<byte>, toks: seq<Token>, room: nat)
    requires forall t | t in toks :: TokOk(t)
    requires |Encoded(toks, 0)| + 8 < 0x100_0000 && room < 0x1_0000_0000
    ensures var m, end := Module(low, toks, room), End(low, toks);
      && 8 <= end && |m| == end + room && Start(m, end) == end - 8 && Stop(m, end) == |low| && Top(m, end) == end + room
      && m[|low|..end - 8] == Encoded(toks, 0)
  {
    hide Encoded, LdDword;
    var es, m, end := Encoded(toks, 0), Module(low, toks, room), End(low, toks);
    var w1, w2 := Word(0x0800_0000 + |es| + 8), Word(room);
    assert m[end - 8..end - 4] == w1;
    assert m[end - 4..end] == w2;
    WordBack(m, end - 8, 0x0800_0000 + |es| + 8);
    WordBack(m, end - 4, room);
    assert (0x0800_0000 + |es| + 8) / 0x100_0000 == 8 && (0x0800_0000 + |es| + 8) % 0x100_0000 == |es| + 8;
  }

  lemma {:induction false} RoomEnough(steps: seq<Step>, n: nat, end: nat, top: nat, stop: nat)
    requires Complete(steps, stop) && Ordered(steps, end) && n + Total(steps) + end <= top
    ensures Apart(steps, n, top)
    decreases |steps|
  {
    if steps != [] {
      assert forall k | 0 <= k < |steps| - 1 :: steps[1..][k] == steps[k + 1];
      RoomEnough(steps[1..], n + Len(steps[0].tok), end, top, stop);
    }
  }

  /** No token is read from above end. */
  predicate Ordered(steps: seq<Step>, end: int) { forall k | 0 <= k < |steps| :: steps[k].cur <= end }

  lemma {:induction false} ParsedBelow(m: seq<byte>, r: int, stop: int, flags: byte, left: nat)
    requires left <= 8
    ensures Ordered(Parse(m, r, stop, flags, left), r)
    decreases r - stop, 8 - left
  {
    hide Parse, TokenAt;
    ParseStep(m, r, stop, flags, left);
    if left == 0 {
      if r > stop {
        ParsedBelow(m, r - 1, stop, At(m, r - 1), 8);
      } else {
        NoTokens(m, r, stop, flags);
      }
    } else {
      var s := TokenAt(m, r, flags >= 0x80);
      CursorMoves(m, r, flags >= 0x80);
      if s.cur > stop {
        ParsedBelow(m, s.cur, stop, flags as int * 2 % 0x100, left - 1);
      }
    }
  }

  /**
   Every list of tokens whose references hit written bytes is what a module is made of: with room for what the tokens
   put out, it can be unpacked in place, gives just that, and memory below is left alone.
   */
  lemma Unpacks(low: seq<byte>, toks: seq<Token>, room: nat)
    requires (forall t | t in toks :: TokOk(t)) && RefsOk(Steps(toks), 0) && Total(Steps(toks)) <= room < 0x1_0000_0000
    requires |Encoded(toks, 0)| + 8 < 0x100_0000
    ensures var m, end := Module(low, toks, room), End(low, toks);
      && 8 <= end <= |m| && InPlace(m, end) && Output(m, end) == Expand(Steps(toks), [])
      && Stop(m, end) == |low| && Complete(Stream(m, end), Stop(m, end))
  {
    hide Parse, Expand, RefsOk, Apart, Encoded, Total;
    var m, end := Module(low, toks, room), End(low, toks);
    ModuleParts(low, toks, room);
    ParsesBack(m, end - 8, |low|, toks, 0, 0);
    ParsedBelow(m, end - 8, |low|, 0, 0);
    assert Toks(Steps(toks)) == toks;
    SameTokens(Stream(m, end), Steps(toks), []);
    RoomEnough(Stream(m, end), 0, end, end + room, |low|);
  }

  lemma {:induction false} EncodedSize(toks: seq<Token>, left: nat)
    requires left <= 8 && forall t | t in toks :: TokOk(t)
    ensures |Encoded(toks, left)| <= 3 * |toks| - if left > 0 && toks != [] then 1 else 0
    decreases |toks|, 8 - left
  {
    hide Flags;
    if toks != [] {
      if left == 0 {
        EncodedSize(toks, 8);
      } else {
        assert toks[0] in toks && |Packed(toks[0])| <= 2;
        EncodedSize(toks[1..], left - 1);
      }
    }
  }

  function Literals(data: seq<byte>): (r: seq<Token>)
    ensures |r| == |data| && forall t | t in r :: TokOk(t)
  {
    seq(|data|, i requires 0 <= i < |data| => Literal(data[i]))
  }

  /** The bytes in reverse order in front of out. */
  function Backwards(data: seq<byte>, out: seq<byte>): (r: seq<byte>)
    ensures |r| == |data| + |out|
    ensures forall k | 0 <= k < |data| :: r[k] == data[|data| - 1 - k]
    ensures r[|data|..] == out
  {
    if data == [] then out else Backwards(data[1..], [data[0]] + out)
  }

  lemma StepsOf(t: Token, rest: seq<Token>)
    ensures Steps([t] + rest) == [Step(t, 0)] + Steps(rest)
  {
  }

  lemma {:induction false} LiteralsPut(data: seq<byte>, rest: seq<Token>, out: seq<byte>)
    requires RefsOk(Steps(rest), |data| + |out|)
    ensures RefsOk(Steps(Literals(data) + rest), |out|)
    ensures Expand(Steps(Literals(data) + rest), out) == Expand(Steps(rest), Backwards(data, out))
    ensures Total(Steps(Literals(data) + rest)) == |data| + Total(Steps(rest))
    decreases |data|
  {
    hide Backwards, Steps, Literals, RefsOk, Expand, Total;
    if data == [] {
      LiteralsNone(rest, out);
    } else {
      LiteralsSome(data, rest, out);
      LiteralsPut(data[1..], rest, [data[0]] + out);
      StepsOf(Literal(data[0]), Literals(data[1..]) + rest);
      FirstStep(Step(Literal(data[0]), 0), Steps(Literals(data[1..]) + rest), out, 0);
      MoreTotal(Step(Literal(data[0]), 0), Steps(Literals(data[1..]) + rest));
    }
  }

  lemma LiteralsNone(rest: seq<Token>, out: seq<byte>)
    ensures Literals([]) + rest == rest && Backwards([], out) == out
  {
  }

  lemma LiteralsSome(data: seq<byte>, rest: seq<Token>, out: seq<byte>)
    requires data != []
    ensures Literals(data) + rest == [Literal(data[0])] + (Literals(data[1..]) + rest)
    ensures Backwards(data, out) == Backwards(data[1..], [data[0]] + out)
  {
  }

  lemma MoreTotal(s: Step, rest: seq<Step>)
    ensures Total([s] + rest) == Len(s.tok) + Total(rest)
  {
    assert ([s] + rest)[1..] == rest;
  }

  /** Any bytes, packed as literals, are unpacked in reverse order, as the decoder puts them out. */
  lemma UnpacksLiterals(low: seq<byte>, data: seq<byte>)
    requires |data| < 0x50_0000
    ensures var m, end := Module(low, Literals(data), |data|), End(low, Literals(data));
      8 <= end <= |m| && InPlace(m, end) && Output(m, end) == Backwards(data, [])
  {
    hide Expand, RefsOk, Total, Literals, Steps, Encoded, Stop, Stream, InPlace;
    var toks := Literals(data);
    assert Literals(data) + [] == toks;
    EncodedSize(toks, 0);
    NoneLeft(Backwards(data, []), |data|);
    LiteralsPut(data, [], []);
    Unpacks(low, toks, |data|);
  }

  lemma NoneLeft(out: seq<byte>, n: nat)
    ensures Steps([]) == [] && RefsOk(Steps([]), n) && Expand(Steps([]), out) == out && Total(Steps([])) == 0
  {
  }

  /** Bytes and a reference into them: off + 1 places on from each byte of the copy is the byte it is a copy of. */
  lemma UnpacksReference(low: seq<byte>, data: seq<byte>, off: nat, len: nat)
    requires |data| < 0x10_0000 && TokOk(Back(off, len)) && off < |data|
    ensures var toks := Literals(data) + [Back(off, len)];
      && (forall t | t in toks :: TokOk(t))
      && var m, end := Module(low, toks, |data| + len), End(low, toks);
        8 <= end <= |m| && InPlace(m, end) && Output(m, end) == CopyBack(Backwards(data, []), off, len)
  {
    hide Expand, RefsOk, Total, Literals, Steps, Encoded, Stop, Stream, InPlace, CopyBack, Backwards;
    var toks, t := Literals(data) + [Back(off, len)], Back(off, len);
    var out := Backwards(data, []);
    assert forall t | t in toks :: TokOk(t);
    EncodedSize(toks, 0);
    StepsOf(t, []);
    assert [t] + [] == [t];
    NoneLeft(CopyBack(out, off, len), |out| + len);
    FirstStep(Step(t, 0), Steps([]), out, 0);
    MoreTotal(Step(t, 0), Steps([]));
    LiteralsPut(data, [t], []);
    Unpacks(low, toks, |data| + len);
  }

  /** 600 bytes that count up, modulo 256. */
  function Counting(): (r: seq<byte>)
    ensures |r| == 600
  {
    seq(600, i => i % 0x100)
  }

  /** The reference with the bytes 0x34 and 0x12 is to the byte 0x237 places on, and tells four bytes. */
  lemma FarReference()
    ensures Packed(Back(0x236, 4)) == [0x34, 0x12]
    ensures var toks := Literals(Counting()) + [Back(0x236, 4)];
      && (forall t | t in toks :: TokOk(t))
      && var m, end := Module([], toks, 604), End([], toks);
        && 8 <= end <= |m| && InPlace(m, end) && |Output(m, end)| == 604 && Output(m, end)[..4] == [36, 35, 34, 33]
  {
    hide InPlace, Output, Module, End, CopyBack, Literals;
    UnpacksReference([], Counting(), 0x236, 4);
    var b := Backwards(Counting(), []);
    var r := CopyBack(b, 0x236, 4);
    CopyBackAt(b, 0x236, 4, 0);
    CopyBackAt(b, 0x236, 4, 1);
    CopyBackAt(b, 0x236, 4, 2);
    CopyBackAt(b, 0x236, 4, 3);
    assert r[4..][0x233] == r[0x237] && r[4..][0x234] == r[0x238];
    assert r[4..][0x235] == r[0x239] && r[4..][0x236] == r[0x23A];
    assert r[0] == b[0x233] && r[1] == b[0x234] && r[2] == b[0x235] && r[3] == b[0x236];
    assert r[..4] == [36, 35, 34, 33];
  }
}
