// What a sequence of erase and program commands leaves behind when some of them never take
// effect: sets of byte addresses, and the array they make of the one before.
module FlashMarks {
  import Buffers
  import opened NorFlash

  ghost predicate Between(i: int, lo: int, hi: int) {
    lo <= i < hi
  }

  ghost function Range(lo: int, hi: int): set<int> {
    set i: int | lo <= i < hi && Between(i, lo, hi)
  }

  /** Bytes that an erase took effect on and no later program put back hold ones, all others what
      they held before. */
  ghost function Partly(s: seq<bv8>, erased: set<int>, restored: set<int>): (r: seq<bv8>)
    ensures |r| == |s|
  {
    seq(|s|, i requires 0 <= i < |s| => if i in erased && i !in restored then ONES else s[i])
  }

  /** The marked bytes of data have been programmed. */
  ghost function Stored(s: seq<bv8>, off: nat, data: seq<bv8>, marks: set<int>): (r: seq<bv8>)
    requires off + |data| <= |s|
    ensures |r| == |s|
  {
    seq(|s|, i requires 0 <= i < |s| => if i in marks && off <= i < off + |data| then s[i] & data[i - off] else s[i])
  }

  lemma RangeJoin(lo: int, mid: int, hi: int)
    requires mid <= hi
    ensures lo <= mid ==> Range(lo, mid) + Range(mid, hi) == Range(lo, hi)
    ensures mid <= lo ==> Range(lo, mid) == {}
  {
  }

  lemma RangeInside(lo: int, hi: int, lo': int, hi': int)
    requires lo' <= lo && hi <= hi'
    ensures Range(lo, hi) <= Range(lo', hi')
  {
  }

  lemma NoMarks(s: seq<bv8>)
    ensures Partly(s, {}, {}) == s
  {
  }

  lemma EraseTwoMarks(s: seq<bv8>, one: set<int>, two: set<int>)
    ensures Partly(Partly(s, one, {}), two, {}) == Partly(s, one + two, {})
  {
  }

  /** Marked from end to end, an erase is an erase. */
  lemma EraseWhole(s: seq<bv8>, lo: int, hi: int)
    ensures Partly(s, Range(lo, hi), {}) == Erased(s, lo, hi)
  {
  }

  lemma NothingStored(s: seq<bv8>, off: nat, data: seq<bv8>)
    requires off + |data| <= |s|
    ensures Stored(s, off, data, {}) == s
  {
  }

  lemma StoreMarks(s: seq<bv8>, off: nat, data: seq<bv8>, marks: set<int>, done: nat, size: nat)
    requires off + |data| <= |s| && done + size <= |data|
    ensures Programmed(Stored(s, off, data, marks), off + done, data[done..done + size])
         == Stored(s, off, data, marks + Range(off + done, off + done + size))
  {
  }

  /** Marked from end to end, a program is a program; marked up to some byte, of the data up to it. */
  lemma StoreWhole(s: seq<bv8>, off: nat, data: seq<bv8>, done: nat)
    requires off + |data| <= |s| && done <= |data|
    ensures Stored(s, off, data, Range(off, off + done)) == Programmed(s, off, data[..done])
  {
  }

  /** Programming what was there before puts it back. */
  lemma RestoreMarks(s: seq<bv8>, erased: set<int>, restored: set<int>, off: nat, size: nat, marks: set<int>)
    requires off + size <= |s| && marks <= Range(off, off + size)
    ensures Stored(Partly(s, erased, restored), off, s[off..off + size], marks)
         == Partly(s, erased, restored + marks)
  {
    var p := Partly(s, erased, restored);
    forall i | 0 <= i < |s|
      ensures Stored(p, off, s[off..off + size], marks)[i] == Partly(s, erased, restored + marks)[i]
    {
      if i in marks {
        assert s[off..off + size][i - off] == s[i];
        AndOnes(s[i]);
      }
    }
  }

  lemma AndOnes(b: bv8)
    ensures ONES & b == b && b & b == b
  {
  }

  /** Which bytes make the difference: inside the request those not erased, outside those erased
      and not put back, in both cases unless they held ones anyway. */
  ghost predicate Truthful(s: seq<bv8>, erased: set<int>, restored: set<int>, from: int, to: int) {
    forall i :: 0 <= i < |s| && s[i] != ONES ==> (from <= i < to <==> i in erased && i !in restored)
  }

  /** The request and nothing else has been erased if and only if no byte made the difference. */
  lemma TruthfulIff(s: seq<bv8>, erased: set<int>, restored: set<int>, from: int, to: int)
    ensures Partly(s, erased, restored) == Erased(s, from, to) <==> Truthful(s, erased, restored, from, to)
  {
    var p, q := Partly(s, erased, restored), Erased(s, from, to);
    if p == q {
      forall i | 0 <= i < |s| && s[i] != ONES
        ensures from <= i < to <==> i in erased && i !in restored
      {
        assert p[i] == q[i];
      }
    }
    if Truthful(s, erased, restored, from, to) {
      forall i | 0 <= i < |s|
        ensures p[i] == q[i]
      {
      }
    }
  }

  /** In every run every byte of the chip is what it was, or ones. */
  lemma OldOrOnes(s: seq<bv8>, erased: set<int>, restored: set<int>, i: nat)
    requires i < |s|
    ensures Partly(s, erased, restored)[i] == s[i] || Partly(s, erased, restored)[i] == ONES
  {
  }

  /** Marks inside a range change nothing outside. */
  lemma MarksUntouched(s: seq<bv8>, erased: set<int>, restored: set<int>, lo: int, hi: int)
    requires erased <= Range(lo, hi)
    ensures Buffers.Untouched(s, Partly(s, erased, restored), lo, hi)
  {
  }

  /** Marks on one side of a range are not in it. */
  lemma MarksApart(marks: set<int>, lo: int, hi: int, lo': int, hi': int)
    requires marks <= Range(lo, hi) && (hi <= lo' || hi' <= lo)
    ensures marks !! Range(lo', hi')
  {
  }

  lemma EmptyRange(marks: set<int>, at: int)
    requires marks <= Range(at, at)
    ensures marks == {}
  {
  }

  ghost predicate NoOnes(s: seq<bv8>, lo: int, hi: int) {
    forall i :: 0 <= i < |s| && lo <= i < hi ==> s[i] != ONES
  }

  /** At byte i it shows which bytes were erased and put back. */
  ghost predicate Tells(i: int, lo: int, from: int, to: int, small: int, spared: int, top: int,
                        headDone: int, tailDone: int) {
    !(from <= i < to <==> (0 <= i < small || lo + spared <= i < top) && !(lo <= i < headDone || to <= i < tailDone))
  }

  /** Of the sectors [lo, hi) the bytes [0, small) and [lo + spared, top) have been erased, of their
      head and tail [lo, headDone) and [to, tailDone) put back. If they held no ones, that makes
      exactly the request [from, to) erased if and only if the request is in what was erased and
      what is missing of head and tail is not. */
  lemma SkipsTell(s: seq<bv8>, lo: int, from: int, to: int, hi: int, small: int, spared: int, top: int,
                  headDone: int, tailDone: int)
    requires 0 <= lo <= from < to <= hi <= |s| && NoOnes(s, lo, hi)
    requires 0 <= small <= hi && 0 <= spared && (0 < small || 0 < spared ==> lo == 0) && lo <= top <= hi
    requires top < hi ==> top < to && (lo < top ==> small <= top)
    requires lo <= headDone <= from && to <= tailDone <= hi
    ensures Truthful(s, Range(0, small) + Range(lo + spared, top), Range(lo, headDone) + Range(to, tailDone), from, to)
            <==> if top == hi then
                   && (spared <= small || to <= small || spared <= from)
                   && (headDone == from || (spared == from && small <= headDone))
                   && (tailDone == hi || (hi <= spared && small <= tailDone))
                 else
                   top == lo && to <= small && headDone == from && (tailDone == hi || small <= tailDone)
  {
    hide Tells, NoOnes;
    var erased, restored := Range(0, small) + Range(lo + spared, top), Range(lo, headDone) + Range(to, tailDone);
    forall i | lo <= i < hi
      ensures s[i] != ONES
      ensures Tells(i, lo, from, to, small, spared, top, headDone, tailDone)
              <==> !(from <= i < to <==> i in erased && i !in restored)
    {
      TellsIff(s, i, lo, from, to, hi, small, spared, top, headDone, tailDone);
    }
    assert Truthful(s, erased, restored, from, to)
      <==> forall i :: lo <= i < hi ==> !Tells(i, lo, from, to, small, spared, top, headDone, tailDone);
    NothingTells(lo, from, to, hi, small, spared, top, headDone, tailDone);
  }

  lemma TellsIff(s: seq<bv8>, i: int, lo: int, from: int, to: int, hi: int, small: int, spared: int, top: int,
                 headDone: int, tailDone: int)
    requires 0 <= lo <= i < hi <= |s| && NoOnes(s, lo, hi)
    ensures s[i] != ONES
    ensures Tells(i, lo, from, to, small, spared, top, headDone, tailDone)
            <==> !(from <= i < to <==> i in Range(0, small) + Range(lo + spared, top)
                                       && i !in Range(lo, headDone) + Range(to, tailDone))
  {
  }

  /** It suffices to look at six bytes. */
  lemma NothingTells(lo: int, from: int, to: int, hi: int, small: int, spared: int, top: int,
                     headDone: int, tailDone: int)
    requires 0 <= lo <= from < to <= hi
    requires 0 <= small <= hi && 0 <= spared && (0 < small || 0 < spared ==> lo == 0) && lo <= top <= hi
    requires top < hi ==> top < to && (lo < top ==> small <= top)
    requires lo <= headDone <= from && to <= tailDone <= hi
    ensures (forall i :: lo <= i < hi ==> !Tells(i, lo, from, to, small, spared, top, headDone, tailDone))
            <==> if top == hi then
                   && (spared <= small || to <= small || spared <= from)
                   && (headDone == from || (spared == from && small <= headDone))
                   && (tailDone == hi || (hi <= spared && small <= tailDone))
                 else
                   top == lo && to <= small && headDone == from && (tailDone == hi || small <= tailDone)
  {
    if forall i :: lo <= i < hi ==> !Tells(i, lo, from, to, small, spared, top, headDone, tailDone) {
      var inside, above := if small < from then from else small, if top < from then from else top;
      if inside < to {
        assert !Tells(inside, lo, from, to, small, spared, top, headDone, tailDone);
      }
      if above < to {
        assert !Tells(above, lo, from, to, small, spared, top, headDone, tailDone);
      }
      if headDone < from {
        assert !Tells(headDone, lo, from, to, small, spared, top, headDone, tailDone);
        assert !Tells(from - 1, lo, from, to, small, spared, top, headDone, tailDone);
      }
      if tailDone < hi {
        assert !Tells(tailDone, lo, from, to, small, spared, top, headDone, tailDone);
        assert !Tells(hi - 1, lo, from, to, small, spared, top, headDone, tailDone);
      }
    }
  }

  /** Erasing a range and putting back all that surrounds a part of it erases exactly that part. */
  lemma AroundRequest(s: seq<bv8>, lo: int, from: int, to: int, hi: int)
    requires lo <= from <= to <= hi
    ensures Partly(s, Range(lo, hi), Range(lo, from) + Range(to, hi)) == Erased(s, from, to)
  {
  }
}
