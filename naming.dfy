/** Block names: A, B, ..., Z, then AA, AB, ..., ZZ. Both programs use the same
    closed formula, which indexes the alphabet out of range from block 702 on
    (a panic in Go, an IndexError in Python); the model returns an error there. */
module Naming {
  import opened Grid

  const Letters: string := "ABCDEFGHIJKLMNOPQRSTUVWXYZ"

  /** The two-letter formula: letters[n/26 - 1] then letters[n % 26]. */
  function GenerateName(n: nat): (r: Result<string>)
    ensures r.Ok? <==> n < 702
    ensures r.Ok? ==> |r.value| == (if n < 26 then 1 else 2)
    ensures r.Ok? ==> NameIndex(r.value) == n
  {
    if n < 26 then
      LetterIndexOf(n);
      Ok([Letters[n]])
    else if n / 26 - 1 < |Letters| then
      LetterIndexOf(n / 26 - 1);
      LetterIndexOf(n % 26);
      Ok([Letters[n / 26 - 1], Letters[n % 26]])
    else Err(IndexOutOfRange)
  }

  /** Position of an upper-case letter in the alphabet, or -1. */
  function LetterIndex(c: char): (k: int)
    ensures -1 <= k < 26
    ensures 0 <= k ==> Letters[k] == c
    ensures k == -1 ==> c !in Letters
  {
    if 'A' <= c <= 'Z' then
      LetterCode(c as int - 'A' as int);
      c as int - 'A' as int
    else
      assert forall i :: 0 <= i < |Letters| ==> 'A' <= Letters[i] <= 'Z' by {
        forall i | 0 <= i < |Letters| ensures 'A' <= Letters[i] <= 'Z' {
          LetterCode(i);
        }
      }
      -1
  }

  lemma LetterCode(k: int)
    requires 0 <= k < 26
    ensures Letters[k] as int == 'A' as int + k
  {
  }

  /** Reads a name back: the inverse of GenerateName, as its contract states. */
  function NameIndex(s: string): (n: int)
  {
    if |s| == 1 && LetterIndex(s[0]) >= 0 then LetterIndex(s[0])
    else if |s| == 2 && LetterIndex(s[0]) >= 0 && LetterIndex(s[1]) >= 0 then
      (LetterIndex(s[0]) + 1) * 26 + LetterIndex(s[1])
    else -1
  }

  lemma LetterIndexOf(k: int)
    requires 0 <= k < 26
    ensures LetterIndex(Letters[k]) == k
  {
    LetterCode(k);
  }

  /** Different numbers below 702 get different names. */
  lemma NameInjective(n: nat, m: nat)
    requires n < 702 && m < 702 && n != m
    ensures GenerateName(n).value != GenerateName(m).value
  {
  }

  /** Every name is made of upper-case letters only. */
  lemma NameLetters(n: nat, i: int)
    requires n < 702 && 0 <= i < |GenerateName(n).value|
    ensures 'A' <= GenerateName(n).value[i] <= 'Z'
  {
    if n < 26 {
      LetterCode(n);
    } else {
      LetterCode(n / 26 - 1);
      LetterCode(n % 26);
    }
  }

  lemma NameExamples()
    ensures GenerateName(0) == Ok("A")
    ensures GenerateName(25) == Ok("Z")
    ensures GenerateName(26) == Ok("AA")
    ensures GenerateName(27) == Ok("AB")
    ensures GenerateName(701) == Ok("ZZ")
    ensures GenerateName(702) == Err(IndexOutOfRange)
  {
  }
}
