// The result of a printf: literal text and converted arguments, put together in a growing buffer.
module PrintfResult {
  import opened Memory
  import opened Xsize
  import opened PrintfFormat
  import opened PrintfParse

  // A text so long that doubling its size may overflow.
  predicate TooLong(n: nat) { 2 * n >= SIZE_MAX }

  class Accumulator {
    // The caller's buffer, if any.
    const resultbuf: array?<char>
    var result: array?<char>
    var capacity: nat
    var length: nat

    ghost predicate Valid()
      reads this
    {
      && capacity == (if result == null then 0 else result.Length)
      && length <= capacity < SIZE_MAX
    }

    function Text(): string
      requires Valid()
      reads this, result
    {
      if result == null then [] else result[..length]
    }

    constructor (resultbuf: array?<char>)
      requires resultbuf != null ==> resultbuf.Length < SIZE_MAX
      ensures Valid() && Text() == [] && result == resultbuf == this.resultbuf && length == 0
    {
      this.resultbuf, result := resultbuf, resultbuf;
      capacity := if resultbuf == null then 0 else resultbuf.Length;
      length := 0;
    }

    // Moves the text to a new memory block.
    method Move(size: nat)
      requires Valid() && length <= size < SIZE_MAX
      modifies this`result, this`capacity
      ensures Valid() && capacity == size && result != null && fresh(result) && Text() == old(Text())
    {
      var memory := new char[size](_ => ' ');
      if result != null {
        for i := 0 to length
          invariant forall k :: 0 <= k < i ==> memory[k] == result[k]
          modifies memory
        {
          memory[i] := result[i];
        }
      }
      result, capacity := memory, size;
    }

    // ENSURE_ALLOCATION: room for needed characters, or no memory for it.
    method EnsureAllocation(needed: Size, heap: Heap) returns (ok: bool)
      requires Valid()
      modifies this`result, this`capacity, heap
      ensures heap.asked >= old(heap.asked)
      ensures !ok ==> heap.Refused(old(heap.asked)) || TooLong(needed)
      ensures ok ==> Valid() && needed <= capacity && Text() == old(Text()) && needed < SIZE_MAX
      ensures result == old(result) || fresh(result)
    {
      if needed > capacity {
        var size := if capacity > 0 then Xtimes(capacity, 2) else 12;
        if needed > size {
          size := needed;
        }
        var memorySize := Xtimes(size, 1);
        if SizeOverflow(memorySize) {
          return false;
        }
        var granted := heap.Ask();
        if !granted {
          return false;
        }
        Move(size);
      }
      return true;
    }

    // Appends a piece of text.
    method Append(piece: string, heap: Heap) returns (ok: bool)
      requires Valid() && |piece| <= SIZE_MAX
      modifies this, result, heap
      ensures heap.asked >= old(heap.asked)
      ensures !ok ==> heap.Refused(old(heap.asked)) || TooLong(|old(Text()) + piece|)
      ensures ok ==> Valid() && Text() == old(Text()) + piece
      ensures result == old(result) || fresh(result)
    {
      var augmentedLength := Xsum(length, |piece|);
      ok := EnsureAllocation(augmentedLength, heap);
      if ok && piece != [] {
        Copy(piece);
      }
    }

    method Copy(piece: string)
      requires Valid() && result != null && length + |piece| <= capacity
      modifies this`length, result
      ensures Valid() && Text() == old(Text()) + piece && length == old(length) + |piece|
    {
      ghost var was := Text();
      for i := 0 to |piece|
        invariant forall k :: 0 <= k < length ==> result[k] == was[k]
        invariant forall k :: 0 <= k < i ==> result[length + k] == piece[k]
        modifies result
      {
        result[length + i] := piece[i];
      }
      length := length + |piece|;
    }
  }

  // What a directive contributes: a percent sign, or the conversion of its argument.
  function Converted(d: Directive, out: string): string
  {
    if d.conversion == '%' then "%" else out
  }

  // The format from cp on, with each directive replaced by what it contributes.
  function Expanded(f: string, cp: nat, dirs: seq<Directive>, outs: seq<string>): string
    requires cp <= |f| && |dirs| == |outs|
    decreases |dirs|
  {
    if dirs == [] then f[cp..]
    else if cp <= dirs[0].dirStart < dirs[0].dirEnd <= |f| then
      f[cp..dirs[0].dirStart] + Converted(dirs[0], outs[0]) + Expanded(f, dirs[0].dirEnd, dirs[1..], outs[1..])
    else ""
  }

  ghost predicate Verbatim(f: string, d: Directive, out: string)
  {
    d.conversion != '%' && 0 <= d.dirStart <= d.dirEnd <= |f| && out == f[d.dirStart..d.dirEnd]
  }

  // If every directive contributed its own text, the result would be the format.
  lemma {:induction false} ExpandedVerbatim(f: string, cp: nat, dirs: seq<Directive>, outs: seq<string>)
    requires cp <= |f| && |dirs| == |outs| && Covers(f, cp, dirs)
    requires forall k :: 0 <= k < |dirs| ==> Verbatim(f, dirs[k], outs[k])
    ensures Expanded(f, cp, dirs, outs) == f[cp..]
    decreases |dirs|
  {
    if dirs != [] {
      var d := dirs[0];
      ExpandedVerbatim(f, d.dirEnd, dirs[1..], outs[1..]);
      assert f[cp..d.dirStart] + f[d.dirStart..d.dirEnd] + f[d.dirEnd..] == f[cp..];
    }
  }

  // A text with every percent sign doubled.
  function Escaped(t: string): string
  {
    if t == "" then "" else (if t[0] == '%' then "%%" else [t[0]]) + Escaped(t[1..])
  }

  lemma DoubledPercent(f: string, i: nat, posn: nat)
    requires i + 1 < |f| && f[i] == '%' == f[i + 1] && posn <= SIZE_MAX
    ensures var p := ParseDirective(f, i, posn);
            && p.Parsed? && p.dir.dirStart == i && p.dir.dirEnd == i + 2 && p.dir.conversion == '%'
            && p.posn == posn && p.uses == []
  {
    assert f[i + 1..i + 1] == "";
  }

  lemma ExpandedEarlier(f: string, i: nat, dirs: seq<Directive>, outs: seq<string>)
    requires i < |f| && f[i] != '%' && |dirs| == |outs| && Covers(f, i + 1, dirs)
    ensures Expanded(f, i, dirs, outs) == [f[i]] + Expanded(f, i + 1, dirs, outs)
  {
    if dirs != [] {
      assert f[i..dirs[0].dirStart] == [f[i]] + f[i + 1..dirs[0].dirStart];
    }
  }

  // From i on, the format uses no arguments and prints the text t.
  ghost predicate Prints(f: string, i: nat, t: string, outs: seq<string>)
    requires i <= |f|
  {
    var p := ParseFrom(f, i, 0);
    && p.Format? && p.uses == [] && Covers(f, i, p.dirs) && (forall d :: d in p.dirs ==> d.conversion == '%')
    && (|outs| == |p.dirs| ==> Expanded(f, i, p.dirs, outs) == t)
  }

  lemma PercentPrints(f: string, i: nat, t: string, outs: seq<string>)
    requires i + 1 < |f| && f[i] == f[i + 1] == '%' && Prints(f, i + 2, t, if outs == [] then [] else outs[1..])
    ensures Prints(f, i, "%" + t, outs)
  {
    hide ParseDirective;
    DoubledPercent(f, i, 0);
    var p, rest := ParseFrom(f, i, 0), ParseFrom(f, i + 2, 0);
    assert f[i..i] == "" && p.dirs[1..] == rest.dirs;
  }

  lemma LiteralPrints(f: string, i: nat, t: string, outs: seq<string>)
    requires i < |f| && f[i] != '%' && Prints(f, i + 1, t, outs)
    ensures Prints(f, i, [f[i]] + t, outs)
  {
    hide ParseDirective;
    var p := ParseFrom(f, i, 0);
    CoversMore(f, i, p.dirs);
    if |outs| == |p.dirs| { ExpandedEarlier(f, i, p.dirs, outs); }
  }

  // Printing an escaped text prints the text: it uses no arguments, and each doubled percent sign becomes one.
  lemma {:induction false} EscapedPrints(t: string, f: string, i: nat, outs: seq<string>)
    requires i <= |f| && f[i..] == Escaped(t)
    ensures Prints(f, i, t, outs)
    decreases |t|
  {
    if t != "" {
      hide Prints;
      assert f[i] == Escaped(t)[0] && t == [t[0]] + t[1..];
      if t[0] == '%' {
        assert f[i + 1] == f[i..][1] && f[i + 2..] == f[i..][2..] == Escaped(t[1..]);
        EscapedPrints(t[1..], f, i + 2, if outs == [] then [] else outs[1..]);
        PercentPrints(f, i, t[1..], outs);
      } else {
        assert f[i + 1..] == f[i..][1..] == Escaped(t[1..]);
        EscapedPrints(t[1..], f, i + 1, outs);
        LiteralPrints(f, i, t[1..], outs);
      }
    } else {
      assert i == |f|;
    }
  }

  lemma ExpandedStep(f: string, cp: nat, dirs: seq<Directive>, outs: seq<string>, i: nat, text: string)
    requires cp <= |f| && i < |dirs| == |outs| && Covers(f, cp, dirs[i..])
    ensures var d := dirs[i];
            && cp <= d.dirStart < d.dirEnd <= |f| && Covers(f, d.dirEnd, dirs[i + 1..])
            && text + Expanded(f, cp, dirs[i..], outs[i..])
               == (text + f[cp..d.dirStart]) + Converted(d, outs[i])
                  + Expanded(f, d.dirEnd, dirs[i + 1..], outs[i + 1..])
  {
    assert dirs[i..][0] == dirs[i] && dirs[i..][1..] == dirs[i + 1..];
    assert outs[i..][0] == outs[i] && outs[i..][1..] == outs[i + 1..];
  }

  lemma ExpandedEnd(f: string, cp: nat)
    requires cp <= |f|
    ensures Expanded(f, cp, [], []) == f[cp..|f|]
  {
  }

  // What is put together up to and including a directive is no longer than the whole result.
  lemma StepLength(text: string, literal: string, piece: string, rest: string, whole: string)
    requires text + literal + piece + rest == whole
    ensures |text + literal + piece| <= |whole|
  {
  }

  lemma LongerStill(n: nat, m: nat)
    requires TooLong(n) && n <= m
    ensures TooLong(m)
  {
  }

  // The literal text from cp on, up to position end.
  method PutLiteral(acc: Accumulator, f: string, cp: nat, end: nat, heap: Heap) returns (ok: bool)
    requires acc.Valid() && cp <= end <= |f| <= SIZE_MAX
    modifies acc, acc.result, heap
    ensures heap.asked >= old(heap.asked)
    ensures !ok ==> heap.Refused(old(heap.asked)) || TooLong(|old(acc.Text()) + f[cp..end]|)
    ensures ok ==> acc.Valid() && acc.Text() == old(acc.Text()) + f[cp..end]
    ensures acc.result == old(acc.result) || fresh(acc.result)
  {
    ok := true;
    if cp != end {
      ok := acc.Append(f[cp..end], heap);
    }
  }

  // The literal text before a directive, and what the directive contributes.
  method PutDirective(acc: Accumulator, f: string, cp: nat, dp: Directive, out: string, heap: Heap)
    returns (ok: bool)
    requires acc.Valid() && cp <= dp.dirStart <= |f| <= SIZE_MAX && |out| <= SIZE_MAX
    modifies acc, acc.result, heap
    ensures heap.asked >= old(heap.asked)
    ensures !ok ==> heap.Refused(old(heap.asked)) ||
                    TooLong(|old(acc.Text()) + f[cp..dp.dirStart] + Converted(dp, out)|)
    ensures ok ==> acc.Valid() && acc.Text() == old(acc.Text()) + f[cp..dp.dirStart] + Converted(dp, out)
    ensures acc.result == old(acc.result) || fresh(acc.result)
  {
    ok := PutLiteral(acc, f, cp, dp.dirStart, heap);
    if ok {
      ok := acc.Append(if dp.conversion == '%' then "%" else out, heap);
    }
  }

  method PutEnd(acc: Accumulator, heap: Heap) returns (ok: bool)
    requires acc.Valid()
    modifies acc, acc.result, heap
    ensures heap.asked >= old(heap.asked)
    ensures !ok ==> heap.Refused(old(heap.asked)) || TooLong(|old(acc.Text())| + 1)
    ensures ok ==> acc.Valid() && acc.result != null && acc.Text() == old(acc.Text())
    ensures ok ==> acc.length < acc.capacity && acc.result[acc.length] == '\0'
  {
    ok := acc.EnsureAllocation(Xsum(acc.length, 1), heap);
    if ok {
      acc.result[acc.length] := '\0';
    }
  }

  // The text so far, and what the directives from the i-th on will contribute, make up the whole result.
  ghost predicate Along(acc: Accumulator, f: string, cp: nat, dirs: seq<Directive>, outs: seq<string>, i: nat,
                        whole: string)
    reads acc, acc.result
  {
    && acc.Valid() && i <= |dirs| == |outs| && cp <= |f| && Covers(f, cp, dirs[i..])
    && acc.Text() + Expanded(f, cp, dirs[i..], outs[i..]) == whole
  }

  // One directive, and the literal text before it.
  method PutStep(acc: Accumulator, f: string, cp: nat, dp: Directive, out: string, heap: Heap,
                 ghost dirs: seq<Directive>, ghost outs: seq<string>, ghost i: nat, ghost whole: string)
    returns (ok: bool)
    requires Along(acc, f, cp, dirs, outs, i, whole) && i < |dirs| && dp == dirs[i] && out == outs[i]
    requires |f| <= SIZE_MAX && |out| <= SIZE_MAX
    modifies acc, acc.result, heap
    ensures heap.asked >= old(heap.asked)
    ensures !ok ==> heap.Refused(old(heap.asked)) || TooLong(|whole| + 1)
    ensures ok ==> 0 <= dp.dirEnd && Along(acc, f, dp.dirEnd, dirs, outs, i + 1, whole)
    ensures acc.result == old(acc.result) || fresh(acc.result)
  {
    hide Covers, Expanded, Converted, TooLong;
    ghost var text := acc.Text();
    ExpandedStep(f, cp, dirs, outs, i, text);
    ghost var piece := Converted(dp, out);
    StepLength(text, f[cp..dp.dirStart], piece, Expanded(f, dp.dirEnd, dirs[i + 1..], outs[i + 1..]), whole);
    ghost var n := |text + f[cp..dp.dirStart] + piece|;
    if TooLong(n) { LongerStill(n, |whole| + 1); }
    ok := PutDirective(acc, f, cp, dp, out, heap);
  }

  // The literal text after the last directive, and the NUL.
  method PutRest(acc: Accumulator, f: string, cp: nat, end: nat, heap: Heap, ghost dirs: seq<Directive>,
                 ghost outs: seq<string>, ghost whole: string)
    returns (ok: bool)
    requires Along(acc, f, cp, dirs, outs, |dirs|, whole) && end == |f| <= SIZE_MAX
    modifies acc, acc.result, heap
    ensures heap.asked >= old(heap.asked)
    ensures !ok ==> heap.Refused(old(heap.asked)) || TooLong(|whole| + 1)
    ensures ok ==> acc.Valid() && acc.result != null && acc.Text() == whole
    ensures ok ==> acc.length < acc.capacity && acc.result[acc.length] == '\0'
  {
    hide Covers, Expanded, TooLong;
    assert dirs[|dirs|..] == [] && outs[|dirs|..] == [];
    ExpandedEnd(f, cp);
    if TooLong(|whole|) { LongerStill(|whole|, |whole| + 1); }
    ok := PutLiteral(acc, f, cp, end, heap);
    if ok {
      ok := PutEnd(acc, heap);
    }
  }

  // The walk over the directives; outs holds what their conversions print. The result, in the caller's buffer or in
  // new memory, is the expanded format and a NUL. It fails only if memory is refused or the result is too long.
  method PutTogether(f: string, d: Directives, ghost dirs: seq<Directive>, outs: seq<string>, resultbuf: array?<char>,
                     heap: Heap)
    returns (ok: bool, acc: Accumulator)
    requires |f| <= SIZE_MAX && d.Holds(dirs) && Covers(f, 0, dirs) && d.dir[d.count].dirStart == |f|
    requires |outs| == |dirs| && forall k :: 0 <= k < |outs| ==> |outs[k]| <= SIZE_MAX
    requires resultbuf != null ==> resultbuf.Length < SIZE_MAX
    requires resultbuf == null || resultbuf as object != d.dir as object
    modifies resultbuf, heap
    ensures fresh(acc) && heap.asked >= old(heap.asked)
    ensures !ok ==> heap.Refused(old(heap.asked)) || TooLong(|Expanded(f, 0, dirs, outs)| + 1)
    ensures ok ==> acc.Valid() && acc.result != null && acc.Text() == Expanded(f, 0, dirs, outs)
    ensures ok ==> acc.length < acc.capacity && acc.result[acc.length] == '\0'
  {
    hide Covers, Expanded, Converted, TooLong;
    acc := new Accumulator(resultbuf);
    ghost var whole := Expanded(f, 0, dirs, outs);
    var cp, i := 0, 0;
    assert dirs[0..] == dirs && outs[0..] == outs;
    assert acc.Text() + whole == whole;
    assert Along(acc, f, cp, dirs, outs, i, whole);
    hide Along;
    while i != d.count
      invariant 0 <= i <= |dirs| && 0 <= cp && Along(acc, f, cp, dirs, outs, i, whole)
      invariant acc.result == resultbuf || fresh(acc.result)
      invariant heap.asked >= old(heap.asked)
      invariant d.Holds(dirs) && d.dir[d.count].dirStart == |f|
      decreases |dirs| - i
    {
      var dp := d.dir[i];
      ok := PutStep(acc, f, cp, dp, outs[i], heap, dirs, outs, i, whole);
      if !ok {
        return;
      }
      cp, i := dp.dirEnd, i + 1;
    }
    ok := PutRest(acc, f, cp, d.dir[i].dirStart, heap, dirs, outs, whole);
  }
}
