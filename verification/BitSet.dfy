/** The sparse bit set that records which offsets of an address range are leased. */
module BitSets {

  const BITS_PER_WORD := 64

  /** One 64-bit machine word; the functions below are the source's operators on its bits. */
  datatype Word = Word(bits: bv64)

  function Shl(w: Word): Word { Word(w.bits << 1) }

  function Shl9(w: Word): Word { Word(w.bits << 9) }

  /** Some bit is set in both words. */
  predicate Meets(a: Word, b: Word) { a.bits & b.bits != 0 }

  function Or(w: Word, mask: Word): Word { Word(w.bits | mask.bits) }

  function AndNot(w: Word, mask: Word): Word { Word(w.bits & !mask.bits) }

  /** w |= mask when ok, w &^= mask otherwise. */
  function Apply(w: Word, mask: Word, ok: bool): Word {
    if ok then Or(w, mask) else AndNot(w, mask)
  }

  /** One shifted left by i places. */
  function Mask(i: nat): Word {
    if i == 0 then Word(1) else Shl(Mask(i - 1))
  }

  lemma OddShift(b: Word)
    ensures !Meets(Word(1), Shl(b))
  {
  }

  lemma ShiftDisjoint(a: Word, b: Word)
    ensures Meets(Shl(a), Shl(b)) ==> Meets(a, b)
  {
  }

  lemma MeetsSymmetric(a: Word, b: Word)
    ensures Meets(a, b) == Meets(b, a)
  {
  }

  lemma {:induction false} MasksDisjoint(i: nat, j: nat)
    requires i < j
    ensures !Meets(Mask(i), Mask(j))
  {
    if i == 0 {
      OddShift(Mask(j - 1));
    } else {
      MasksDisjoint(i - 1, j - 1);
      ShiftDisjoint(Mask(i - 1), Mask(j - 1));
    }
  }

  lemma ShiftNine(w: Word)
    ensures Shl(Shl(Shl(Shl(Shl(Shl(Shl(Shl(Shl(w))))))))) == Shl9(w)
  {
  }

  lemma MaskNine(i: nat)
    ensures Mask(i + 9) == Shl9(Mask(i))
  {
    ShiftNine(Mask(i));
    assert Mask(i + 3) == Shl(Shl(Shl(Mask(i)))) by {
      assert Mask(i + 2) == Shl(Shl(Mask(i))) by { assert Mask(i + 1) == Shl(Mask(i)); }
    }
    assert Mask(i + 6) == Shl(Shl(Shl(Mask(i + 3)))) by {
      assert Mask(i + 5) == Shl(Shl(Mask(i + 3))) by { assert Mask(i + 4) == Shl(Mask(i + 3)); }
    }
    assert Mask(i + 9) == Shl(Shl(Shl(Mask(i + 6)))) by {
      assert Mask(i + 8) == Shl(Shl(Mask(i + 6))) by { assert Mask(i + 7) == Shl(Mask(i + 6)); }
    }
  }

  lemma NineSevenTimes()
    ensures Shl9(Shl9(Shl9(Shl9(Shl9(Shl9(Shl9(Word(1)))))))) == Word(0x8000_0000_0000_0000)
  {
  }

  lemma ShiftedNonzero(w: Word)
    ensures Meets(Shl(w), Shl(w)) ==> Meets(w, w)
    ensures Meets(Word(0x8000_0000_0000_0000), Word(0x8000_0000_0000_0000))
  {
  }

  /** A mask that is shifted on reaches the top bit, so none below 64 is empty. */
  lemma {:induction false} MaskNonzero(i: nat)
    requires i < 64
    ensures Meets(Mask(i), Mask(i))
    decreases 64 - i
  {
    ShiftedNonzero(Mask(i));
    if i == 63 {
      MaskNine(0);
      MaskNine(9);
      MaskNine(18);
      MaskNine(27);
      MaskNine(36);
      MaskNine(45);
      MaskNine(54);
      NineSevenTimes();
    } else {
      MaskNonzero(i + 1);
    }
  }

  lemma ApplyHere(w: Word, a: Word, ok: bool)
    requires Meets(a, a)
    ensures Meets(Apply(w, a, ok), a) <==> ok
  {
  }

  lemma OrKeeps(w: Word, a: Word, b: Word)
    requires Meets(w, b)
    ensures Meets(Or(w, a), b)
  {
  }

  lemma OrAddsOnly(w: Word, a: Word, b: Word)
    requires !Meets(a, b) && Meets(Or(w, a), b)
    ensures Meets(w, b)
  {
  }

  lemma AndNotKeeps(w: Word, a: Word, b: Word)
    requires !Meets(a, b) && Meets(w, b)
    ensures Meets(AndNot(w, a), b)
  {
  }

  lemma AndNotAddsNothing(w: Word, a: Word, b: Word)
    requires Meets(AndNot(w, a), b)
    ensures Meets(w, b)
  {
  }

  lemma ApplyElsewhere(w: Word, a: Word, b: Word, ok: bool)
    requires !Meets(a, b)
    ensures Meets(Apply(w, a, ok), b) <==> Meets(w, b)
  {
    if Meets(w, b) {
      OrKeeps(w, a, b);
      AndNotKeeps(w, a, b);
    }
    if Meets(Or(w, a), b) {
      OrAddsOnly(w, a, b);
    }
    if Meets(AndNot(w, a), b) {
      AndNotAddsNothing(w, a, b);
    }
  }

  /** Changing one bit of a word changes that bit as asked and no other. */
  lemma WordSet(w: Word, i: nat, j: nat, ok: bool)
    requires i < 64 && j < 64
    ensures Meets(Apply(w, Mask(i), ok), Mask(j)) <==> if i == j then ok else Meets(w, Mask(j))
  {
    if i == j {
      MaskNonzero(i);
      ApplyHere(w, Mask(i), ok);
    } else {
      if i < j {
        MasksDisjoint(i, j);
      } else {
        MasksDisjoint(j, i);
        MeetsSymmetric(Mask(i), Mask(j));
      }
      ApplyElsewhere(w, Mask(i), Mask(j), ok);
    }
  }

  type Words = map<nat, Word>

  /** The word stored under idx, zero if there is none. */
  function WordAt(words: Words, idx: nat): Word {
    if idx in words then words[idx] else Word(0)
  }

  /** isSet: the word of bit n exists and has the bit in it. */
  predicate IsSetIn(words: Words, n: nat) {
    n / BITS_PER_WORD in words && Meets(words[n / BITS_PER_WORD], Mask(n % BITS_PER_WORD))
  }

  /** The words after set(n, ok). */
  function SetIn(words: Words, n: nat, ok: bool): Words {
    words[n / BITS_PER_WORD := Apply(WordAt(words, n / BITS_PER_WORD), Mask(n % BITS_PER_WORD), ok)]
  }

  lemma ZeroMeetsNothing(mask: Word)
    ensures !Meets(Word(0), mask)
  {
  }

  lemma SamePosition(n: nat, k: nat)
    ensures n / BITS_PER_WORD == k / BITS_PER_WORD && n % BITS_PER_WORD == k % BITS_PER_WORD <==> n == k
  {
  }

  /** Setting bit n decides bit n and disturbs no other bit, in the same word or another. */
  lemma BitAfterSet(words: Words, n: nat, k: nat, ok: bool)
    ensures IsSetIn(SetIn(words, n, ok), k) <==> if k == n then ok else IsSetIn(words, k)
  {
    WordSet(WordAt(words, n / BITS_PER_WORD), n % BITS_PER_WORD, k % BITS_PER_WORD, ok);
    SamePosition(n, k);
    ZeroMeetsNothing(Mask(k % BITS_PER_WORD));
  }

  class BitSet {
    var words: Words
    // The numbers whose bit is set.
    ghost var Bits: set<nat>
    // The number of the interface that the set belongs to.
    ghost const owner: nat

    ghost predicate Valid()
      reads this
    {
      forall n: nat :: IsSetIn(words, n) <==> n in Bits
    }

    constructor (ghost owner: nat)
      ensures Valid() && Bits == {} && this.owner == owner
    {
      this.owner := owner;
      words := map[];
      Bits := {};
    }

    method IsSet(n: nat) returns (ok: bool)
      requires Valid()
      ensures ok <==> n in Bits
    {
      ok := IsSetIn(words, n);
    }

    method Set(n: nat, ok: bool)
      requires Valid()
      modifies this
      ensures Valid()
      ensures Bits == if ok then old(Bits) + {n} else old(Bits) - {n}
    {
      var wordIdx := n / BITS_PER_WORD;
      var bitIdx := n % BITS_PER_WORD;
      var word := WordAt(words, wordIdx);
      word := Apply(word, Mask(bitIdx), ok);
      words := words[wordIdx := word];

      Bits := if ok then Bits + {n} else Bits - {n};
      forall k: nat
        ensures IsSetIn(words, k) <==> k in Bits
      {
        BitAfterSet(old(words), n, k, ok);
      }
    }
  }

  datatype Call = Call(n: nat, ok: bool)

  /** The words after a run of set calls on an empty set. */
  function RunSets(calls: seq<Call>): Words {
    if calls == [] then map[]
    else SetIn(RunSets(calls[..|calls| - 1]), calls[|calls| - 1].n, calls[|calls| - 1].ok)
  }

  /** Position i holds a call about n, and no later call is about n. */
  ghost predicate LastAbout(calls: seq<Call>, n: nat, i: int) {
    0 <= i < |calls| && calls[i].n == n && forall j :: i < j < |calls| ==> calls[j].n != n
  }

  /** After any run of set calls, a bit is set exactly when the last call about it set it. */
  lemma {:induction false} LastCallDecides(calls: seq<Call>, n: nat)
    ensures IsSetIn(RunSets(calls), n) <==> exists i :: LastAbout(calls, n, i) && calls[i].ok
  {
    if calls != [] {
      var last := |calls| - 1;
      var before := calls[..last];
      LastCallDecides(before, n);
      BitAfterSet(RunSets(before), calls[last].n, n, calls[last].ok);
      if calls[last].n == n {
        assert LastAbout(calls, n, last);
      } else {
        forall i
          ensures LastAbout(before, n, i) <==> LastAbout(calls, n, i)
        {
          assert forall j :: 0 <= j < last ==> calls[j] == before[j];
        }
      }
    }
  }
}
