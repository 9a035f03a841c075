// The disk volume header and its checksum (include/sys/dvh.h:25-31,
// src/libsc/fs/is_vh.c:11-69).
module VolumeHeader {
  import opened Checksum
  import opened Words

  const VHMAGIC: Word := 0xbe5a941

  // The structure is 512 bytes, 128 words: vh_magic comes first, vh_csum is the
  // last word but one.
  const VH_WORDS := 128
  const VH_MAGIC := 0
  const VH_CSUM := 126

  class Header {
    const words: array<Word>

    ghost predicate Valid() {
      words.Length == VH_WORDS
    }

    constructor (words: array<Word>)
      requires words.Length == VH_WORDS
      ensures Valid() && this.words == words
    {
      this.words := words;
    }

    // vh_checksum: the sum of every word, checksum included, with 32-bit adds.
    method VhChecksum() returns (csum: Word)
      requires Valid()
      ensures csum == Sum(words[..]) % TWO_TO_THE_32
    {
      csum := 0;
      var ip := 0;
      while ip < words.Length
        invariant 0 <= ip <= words.Length
        invariant csum == Sum(words[..][..ip]) % TWO_TO_THE_32
      {
        PassWord(words[..], ip);
        csum := Add(csum, words[ip]);
        ip := ip + 1;
      }
      assert words[..][..ip] == words[..];
    }

    // is_vh: does this look like a volume header?
    method IsVh() returns (yes: bool)
      requires Valid()
      ensures yes <==> words[0] == 0xbe5a941 && SumsToZero(words[..])
    {
      if words[VH_MAGIC] != VHMAGIC {
        return false;
      }
      var csum := VhChecksum();
      return csum == 0;
    }

    // set_vhchksum: stamp the magic number, then make the header sum to zero.
    method SetVhchksum()
      requires Valid()
      modifies words
      ensures words[0] == 0xbe5a941 && SumsToZero(words[..])
      ensures forall i :: 0 <= i < 128 && i != 0 && i != 126 ==> words[i] == old(words[i])
    {
      words[VH_MAGIC] := VHMAGIC;
      words[VH_CSUM] := 0;
      var csum := VhChecksum();
      ghost var zeroed := words[..];
      words[VH_CSUM] := Negate(csum);
      assert zeroed[VH_CSUM := 0] == zeroed;
      assert words[..] == zeroed[VH_CSUM := Negate(csum)];
      OnlyOneChecksum(zeroed, VH_CSUM, Negate(csum));
    }
  }

  ghost predicate LooksValid(words: seq<Word>) {
    |words| == VH_WORDS && words[VH_MAGIC] == VHMAGIC && SumsToZero(words)
  }

  // Without the magic number nothing is accepted, whatever its sum: not even after a
  // change of the magic number that another word makes up for ...
  lemma ForgedMagicRejected(words: seq<Word>, magic: Word, i: nat, w: Word)
    requires LooksValid(words) && magic != VHMAGIC && VH_MAGIC != i < VH_WORDS
    requires Add(magic, w) == Add(VHMAGIC, words[i])
    ensures var forged := words[VH_MAGIC := magic][i := w];
            SumsToZero(forged) && !LooksValid(forged)
  {
    TwoChangesDetected(words, VH_MAGIC, magic, i, w);
  }

  // ... nor a blank sector.
  lemma BlankRejected()
    ensures var blank := seq(VH_WORDS, _ => 0);
            SumsToZero(blank) && !LooksValid(blank)
  {
    SumOfZeros(VH_WORDS);
  }

  lemma {:induction false} SumOfZeros(n: nat)
    ensures Sum(seq(n, _ => 0)) == 0
  {
    if n > 0 {
      assert seq(n, _ => 0)[..n - 1] == seq(n - 1, _ => 0);
      SumOfZeros(n - 1);
    }
  }

  // A sealed header is rejected after any change confined to one word, and only
  // one checksum is accepted for the rest of its content.
  lemma OneWordDamageRejected(words: seq<Word>, i: nat, w: Word)
    requires LooksValid(words) && i < VH_WORDS
    ensures LooksValid(words[i := w]) <==> w == words[i]
  {
    if w == words[i] {
      assert words[i := w] == words;
    } else {
      OneChangeDetected(words, i, w);
    }
  }
}
