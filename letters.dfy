/**
 * Conversion between answer indices and answer letters (`ind2chr` and
 * `chr2ind`): 0 is `A`, 1 is `B`, ..., 25 is `Z`.
 */
module Letters {

  /** The number of letters in `string.ascii_uppercase`. */
  const LetterCount: nat := 26

  /** The letter that stands for an invalid index. */
  const InvalidLetter: char := '*'

  /** `string.ascii_uppercase` and `string.ascii_lowercase`. */
  const Uppercase: string := "ABCDEFGHIJKLMNOPQRSTUVWXYZ"
  const Lowercase: string := "abcdefghijklmnopqrstuvwxyz"

  predicate IsUpper(c: char) { 'A' <= c <= 'Z' }

  predicate IsLower(c: char) { 'a' <= c <= 'z' }

  /** `ind2chr`: the upper-case letter of an index, `*` for an index outside 0..25. */
  function Ind2Chr(index: int): (c: char)
    ensures c == InvalidLetter <==> !(0 <= index < LetterCount)
    ensures 0 <= index < LetterCount ==> c == Uppercase[index]
  {
    if index < 0 || index >= LetterCount then InvalidLetter
    else ('A' as int + index) as char
  }

  /** `chr2ind` on one character: the index of a letter in either case, -1 otherwise. */
  function Chr2Ind(c: char): (i: int)
    ensures -1 <= i < LetterCount
    ensures i == -1 <==> !(IsUpper(c) || IsLower(c))
    ensures IsUpper(c) ==> 0 <= i && Uppercase[i] == c
    ensures IsLower(c) ==> 0 <= i && Lowercase[i] == c
  {
    if IsUpper(c) then c as int - 'A' as int
    else if IsLower(c) then c as int - 'a' as int
    else -1
  }

  /** Decoding the letter of a valid index gives the index back. */
  lemma IndexRoundTrip(i: int)
    requires 0 <= i < LetterCount
    ensures Chr2Ind(Ind2Chr(i)) == i
  {
  }

  /** Encoding the index of an upper-case letter gives the letter back. */
  lemma LetterRoundTrip(c: char)
    requires IsUpper(c)
    ensures Ind2Chr(Chr2Ind(c)) == c
  {
  }

  /** A lower-case letter decodes to the same index as its upper-case form. */
  lemma LowerLikeUpper(c: char)
    requires IsLower(c)
    ensures Chr2Ind(c) == Chr2Ind((c as int - 32) as char)
    ensures Ind2Chr(Chr2Ind(c)) == (c as int - 32) as char
  {
  }

  /** The invalid letter `*` is not a letter, so it decodes to -1. */
  lemma InvalidLetterDecodes()
    ensures Chr2Ind(InvalidLetter) == -1
    ensures Chr2Ind(Ind2Chr(-1)) == -1 && Chr2Ind(Ind2Chr(LetterCount)) == -1
  {
  }
}
