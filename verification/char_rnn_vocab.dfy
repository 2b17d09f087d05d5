/**
  The character vocabulary of the char-RNN sample: the 65 characters the trained
  model knows, with the id the model uses for each (`charToID`) and the inverse
  table (`idToChar`). Both tables are written as five rows of thirteen entries,
  concatenated; the values are those of the sample's single initializers.
*/
module CharRnnVocab {
  import opened Wrappers

  /** The size of the vocabulary (`params.vocabSize`). */
  const VocabSize: nat := 65

  /** The rows of thirteen entries both tables are written in. */
  const RowLength: nat := 13

  const IdRow0: seq<char> := ['\n', '!', ' ', '$', '\'', '&', '-', ',', '.', '3', ';', ':', '?']
  const IdRow1: seq<char> := ['A', 'C', 'B', 'E', 'D', 'G', 'F', 'I', 'H', 'K', 'J', 'M', 'L']
  const IdRow2: seq<char> := ['O', 'N', 'Q', 'P', 'S', 'R', 'U', 'T', 'W', 'V', 'Y', 'X', 'Z']
  const IdRow3: seq<char> := ['a', 'c', 'b', 'e', 'd', 'g', 'f', 'i', 'h', 'k', 'j', 'm', 'l']
  const IdRow4: seq<char> := ['o', 'n', 'q', 'p', 's', 'r', 'u', 't', 'w', 'v', 'y', 'x', 'z']

  /** `idToChar`: the character of each id. */
  const IdToChar: seq<char> := IdRow0 + IdRow1 + IdRow2 + IdRow3 + IdRow4

  const IdMapRow0: map<char, int> := map[
    '\n' := 0, '!' := 1, ' ' := 2, '$' := 3, '\'' := 4, '&' := 5, '-' := 6,
    ',' := 7, '.' := 8, '3' := 9, ';' := 10, ':' := 11, '?' := 12]
  const IdMapRow1: map<char, int> := map[
    'A' := 13, 'C' := 14, 'B' := 15, 'E' := 16, 'D' := 17, 'G' := 18, 'F' := 19,
    'I' := 20, 'H' := 21, 'K' := 22, 'J' := 23, 'M' := 24, 'L' := 25]
  const IdMapRow2: map<char, int> := map[
    'O' := 26, 'N' := 27, 'Q' := 28, 'P' := 29, 'S' := 30, 'R' := 31, 'U' := 32,
    'T' := 33, 'W' := 34, 'V' := 35, 'Y' := 36, 'X' := 37, 'Z' := 38]
  const IdMapRow3: map<char, int> := map[
    'a' := 39, 'c' := 40, 'b' := 41, 'e' := 42, 'd' := 43, 'g' := 44, 'f' := 45,
    'i' := 46, 'h' := 47, 'k' := 48, 'j' := 49, 'm' := 50, 'l' := 51]
  const IdMapRow4: map<char, int> := map[
    'o' := 52, 'n' := 53, 'q' := 54, 'p' := 55, 's' := 56, 'r' := 57, 'u' := 58,
    't' := 59, 'w' := 60, 'v' := 61, 'y' := 62, 'x' := 63, 'z' := 64]

  /** `charToID`: the id of each character. */
  const CharToId: map<char, int> := IdMapRow0 + IdMapRow1 + IdMapRow2 + IdMapRow3 + IdMapRow4

  /**
    Row by row, the two tables agree: the id of each character of a row of
    `idToChar` is its position, each id of a row of `charToID` is the position of its
    character, and the rows cover disjoint ranges of characters.
  */
  lemma Row0Agrees()
    ensures |IdRow0| == RowLength
    ensures forall j :: 0 <= j < RowLength ==> IdRow0[j] in IdMapRow0 && IdMapRow0[IdRow0[j]] == 0 * RowLength + j
    ensures forall c :: c in IdMapRow0 ==> 0 <= IdMapRow0[c] - 0 * RowLength < RowLength && IdRow0[IdMapRow0[c] - 0 * RowLength] == c
    ensures forall c :: c in IdMapRow0 ==> c < 'A'
  {}

  lemma Row1Agrees()
    ensures |IdRow1| == RowLength
    ensures forall j :: 0 <= j < RowLength ==> IdRow1[j] in IdMapRow1 && IdMapRow1[IdRow1[j]] == 1 * RowLength + j
    ensures forall c :: c in IdMapRow1 ==> 0 <= IdMapRow1[c] - 1 * RowLength < RowLength && IdRow1[IdMapRow1[c] - 1 * RowLength] == c
    ensures forall c :: c in IdMapRow1 ==> 'A' <= c <= 'M'
  {}

  lemma Row2Agrees()
    ensures |IdRow2| == RowLength
    ensures forall j :: 0 <= j < RowLength ==> IdRow2[j] in IdMapRow2 && IdMapRow2[IdRow2[j]] == 2 * RowLength + j
    ensures forall c :: c in IdMapRow2 ==> 0 <= IdMapRow2[c] - 2 * RowLength < RowLength && IdRow2[IdMapRow2[c] - 2 * RowLength] == c
    ensures forall c :: c in IdMapRow2 ==> 'N' <= c <= 'Z'
  {}

  lemma Row3Agrees()
    ensures |IdRow3| == RowLength
    ensures forall j :: 0 <= j < RowLength ==> IdRow3[j] in IdMapRow3 && IdMapRow3[IdRow3[j]] == 3 * RowLength + j
    ensures forall c :: c in IdMapRow3 ==> 0 <= IdMapRow3[c] - 3 * RowLength < RowLength && IdRow3[IdMapRow3[c] - 3 * RowLength] == c
    ensures forall c :: c in IdMapRow3 ==> 'a' <= c <= 'm'
  {}

  lemma Row4Agrees()
    ensures |IdRow4| == RowLength
    ensures forall j :: 0 <= j < RowLength ==> IdRow4[j] in IdMapRow4 && IdMapRow4[IdRow4[j]] == 4 * RowLength + j
    ensures forall c :: c in IdMapRow4 ==> 0 <= IdMapRow4[c] - 4 * RowLength < RowLength && IdRow4[IdMapRow4[c] - 4 * RowLength] == c
    ensures forall c :: c in IdMapRow4 ==> 'n' <= c <= 'z'
  {}

  /** The rows of one table agree with the rows of the other and are pairwise disjoint. */
  ghost predicate RowAgrees(row: seq<char>, m: map<char, int>, base: int)
  {
    && |row| == RowLength
    && (forall j :: 0 <= j < RowLength ==> row[j] in m && m[row[j]] == base + j)
    && (forall c :: c in m ==> 0 <= m[c] - base < RowLength && row[m[c] - base] == c)
  }

  ghost predicate Disjoint(m1: map<char, int>, m2: map<char, int>)
  {
    forall c :: c in m1 ==> c !in m2
  }

  /** Rows whose characters lie in disjoint ranges share no character. */
  lemma DisjointRanges(m0: map<char, int>, m1: map<char, int>, m2: map<char, int>, m3: map<char, int>, m4: map<char, int>)
    requires forall c :: c in m0 ==> c < 'A'
    requires forall c :: c in m1 ==> 'A' <= c <= 'M'
    requires forall c :: c in m2 ==> 'N' <= c <= 'Z'
    requires forall c :: c in m3 ==> 'a' <= c <= 'm'
    requires forall c :: c in m4 ==> 'n' <= c <= 'z'
    ensures Disjoint(m0, m1) && Disjoint(m0, m2) && Disjoint(m0, m3) && Disjoint(m0, m4)
    ensures Disjoint(m1, m2) && Disjoint(m1, m3) && Disjoint(m1, m4)
    ensures Disjoint(m2, m3) && Disjoint(m2, m4) && Disjoint(m3, m4)
  {}

  /** In tables made of agreeing, disjoint rows, each id's character maps back to the id. */
  lemma RowsForward(r0: seq<char>, r1: seq<char>, r2: seq<char>, r3: seq<char>, r4: seq<char>,
                     m0: map<char, int>, m1: map<char, int>, m2: map<char, int>, m3: map<char, int>, m4: map<char, int>)
    requires RowAgrees(r0, m0, 0 * RowLength) && RowAgrees(r1, m1, 1 * RowLength) && RowAgrees(r2, m2, 2 * RowLength)
    requires RowAgrees(r3, m3, 3 * RowLength) && RowAgrees(r4, m4, 4 * RowLength)
    requires Disjoint(m0, m1) && Disjoint(m0, m2) && Disjoint(m0, m3) && Disjoint(m0, m4)
    requires Disjoint(m1, m2) && Disjoint(m1, m3) && Disjoint(m1, m4)
    requires Disjoint(m2, m3) && Disjoint(m2, m4) && Disjoint(m3, m4)
    ensures |r0 + r1 + r2 + r3 + r4| == VocabSize
    ensures forall i :: 0 <= i < VocabSize ==>
      (r0 + r1 + r2 + r3 + r4)[i] in m0 + m1 + m2 + m3 + m4 && (m0 + m1 + m2 + m3 + m4)[(r0 + r1 + r2 + r3 + r4)[i]] == i
  {
    var r := r0 + r1 + r2 + r3 + r4;
    forall i | 0 <= i < VocabSize
      ensures r[i] in m0 + m1 + m2 + m3 + m4 && (m0 + m1 + m2 + m3 + m4)[r[i]] == i
    {
      if i < RowLength {
        assert r[i] == r0[i];
      } else if i < 2 * RowLength {
        assert r[i] == r1[i - RowLength];
      } else if i < 3 * RowLength {
        assert r[i] == r2[i - 2 * RowLength];
      } else if i < 4 * RowLength {
        assert r[i] == r3[i - 3 * RowLength];
      } else {
        assert r[i] == r4[i - 4 * RowLength];
      }
    }
  }

  /** In tables made of agreeing rows, each character's id maps back to the character. */
  lemma RowsBackward(r0: seq<char>, r1: seq<char>, r2: seq<char>, r3: seq<char>, r4: seq<char>,
                     m0: map<char, int>, m1: map<char, int>, m2: map<char, int>, m3: map<char, int>, m4: map<char, int>)
    requires RowAgrees(r0, m0, 0 * RowLength) && RowAgrees(r1, m1, 1 * RowLength) && RowAgrees(r2, m2, 2 * RowLength)
    requires RowAgrees(r3, m3, 3 * RowLength) && RowAgrees(r4, m4, 4 * RowLength)
    ensures |r0 + r1 + r2 + r3 + r4| == VocabSize
    ensures forall c :: c in m0 + m1 + m2 + m3 + m4 ==>
      0 <= (m0 + m1 + m2 + m3 + m4)[c] < VocabSize && (r0 + r1 + r2 + r3 + r4)[(m0 + m1 + m2 + m3 + m4)[c]] == c
  {
  }

  /** No character appears in two rows of `charToID`. */
  lemma RowMapsDisjoint()
    ensures Disjoint(IdMapRow0, IdMapRow1) && Disjoint(IdMapRow0, IdMapRow2) && Disjoint(IdMapRow0, IdMapRow3)
    ensures Disjoint(IdMapRow0, IdMapRow4) && Disjoint(IdMapRow1, IdMapRow2) && Disjoint(IdMapRow1, IdMapRow3)
    ensures Disjoint(IdMapRow1, IdMapRow4) && Disjoint(IdMapRow2, IdMapRow3) && Disjoint(IdMapRow2, IdMapRow4)
    ensures Disjoint(IdMapRow3, IdMapRow4)
  {
    Row0Agrees(); Row1Agrees(); Row2Agrees(); Row3Agrees(); Row4Agrees();
    DisjointRanges(IdMapRow0, IdMapRow1, IdMapRow2, IdMapRow3, IdMapRow4);
  }

  /** Every id's character maps back to the id. */
  lemma IdToCharToId()
    ensures |IdToChar| == VocabSize
    ensures forall i :: 0 <= i < VocabSize ==> IdToChar[i] in CharToId && CharToId[IdToChar[i]] == i
  {
    RowMapsDisjoint();
    Row0Agrees(); Row1Agrees(); Row2Agrees(); Row3Agrees(); Row4Agrees();
    RowsForward(IdRow0, IdRow1, IdRow2, IdRow3, IdRow4, IdMapRow0, IdMapRow1, IdMapRow2, IdMapRow3, IdMapRow4);
  }

  /** Every known character's id maps back to the character. */
  lemma CharToIdToChar()
    ensures forall c :: c in CharToId ==> 0 <= CharToId[c] < VocabSize && IdToChar[CharToId[c]] == c
  {
    Row0Agrees(); Row1Agrees(); Row2Agrees(); Row3Agrees(); Row4Agrees();
    RowsBackward(IdRow0, IdRow1, IdRow2, IdRow3, IdRow4, IdMapRow0, IdMapRow1, IdMapRow2, IdMapRow3, IdMapRow4);
  }

  /** `idToChar` and `charToID` are inverse to each other. */
  ghost predicate Inverse(idToChar: seq<char>, charToId: map<char, int>)
  {
    && (forall i :: 0 <= i < |idToChar| ==> idToChar[i] in charToId && charToId[idToChar[i]] == i)
    && (forall c :: c in charToId ==> 0 <= charToId[c] < |idToChar| && idToChar[charToId[c]] == c)
  }

  /** The sample's two tables are inverse to each other. */
  lemma TablesInverse()
    ensures |IdToChar| == VocabSize && Inverse(IdToChar, CharToId)
  {
    IdToCharToId();
    CharToIdToChar();
  }

  /** `charToID.at(c)`: the id of a known character; `None` where `at` throws. */
  function LookupId(charToId: map<char, int>, c: char): (r: Option<int>)
    ensures r.Some? <==> c in charToId
  {
    if c in charToId then Some(charToId[c]) else None
  }

  /** `idToChar.at(id)` for an unsigned `id`: `None` where `at` throws. */
  function LookupChar(idToChar: seq<char>, id: nat): (r: Option<char>)
    ensures r.Some? <==> id < |idToChar|
  {
    if id < |idToChar| then Some(idToChar[id]) else None
  }

  /** The id of a character of the sample's vocabulary. */
  lemma CharIdOf(c: char)
    ensures LookupId(CharToId, c).Some? <==> c in IdToChar
    ensures LookupId(CharToId, c).Some? ==>
      0 <= LookupId(CharToId, c).value < VocabSize && IdToChar[LookupId(CharToId, c).value] == c
  {
    TablesInverse();
  }

  /** The character of an id of the sample's vocabulary. */
  lemma CharOfId(id: nat)
    ensures LookupChar(IdToChar, id).Some? <==> id < VocabSize
    ensures LookupChar(IdToChar, id).Some? ==> LookupId(CharToId, LookupChar(IdToChar, id).value) == Some(id)
  {
    TablesInverse();
  }

  /** The ids looked up for the characters of the seed sentence, or `None` if one is unknown. */
  function Encode(charToId: map<char, int>, s: string): (r: Option<seq<int>>)
    ensures r.Some? <==> forall i :: 0 <= i < |s| ==> s[i] in charToId
    ensures r.Some? ==> |r.value| == |s| && forall i :: 0 <= i < |s| ==> r.value[i] == charToId[s[i]]
  {
    if |s| == 0 then Some([])
    else
      match (LookupId(charToId, s[0]), Encode(charToId, s[1..]))
      case (Some(id), Some(rest)) => Some([id] + rest)
      case _ => None
  }

  /** The characters generated for predicted ids, or `None` if one is out of range. */
  function Decode(idToChar: seq<char>, ids: seq<int>): (r: Option<string>)
    ensures r.Some? <==> forall i :: 0 <= i < |ids| ==> 0 <= ids[i] < |idToChar|
    ensures r.Some? ==> |r.value| == |ids| && forall i :: 0 <= i < |ids| ==> r.value[i] == idToChar[ids[i]]
  {
    if |ids| == 0 then Some([])
    else if ids[0] < 0 then None
    else
      match (LookupChar(idToChar, ids[0]), Decode(idToChar, ids[1..]))
      case (Some(c), Some(rest)) => Some([c] + rest)
      case _ => None
  }

  /** With inverse tables, decoding the ids of an encodable sentence gives the sentence back. */
  lemma DecodeEncode(idToChar: seq<char>, charToId: map<char, int>, s: string)
    requires Inverse(idToChar, charToId) && Encode(charToId, s).Some?
    ensures Decode(idToChar, Encode(charToId, s).value) == Some(s)
  {
    var ids := Encode(charToId, s).value;
    assert Decode(idToChar, ids).Some?;
    assert Decode(idToChar, ids).value == s;
  }

  /** With inverse tables, encoding the characters decoded from valid ids gives the ids back. */
  lemma EncodeDecode(idToChar: seq<char>, charToId: map<char, int>, ids: seq<int>)
    requires Inverse(idToChar, charToId) && Decode(idToChar, ids).Some?
    ensures Encode(charToId, Decode(idToChar, ids).value) == Some(ids)
  {
    var s := Decode(idToChar, ids).value;
    assert Encode(charToId, s).Some?;
    assert Encode(charToId, s).value == ids;
  }

  /** With inverse tables, every sentence over the characters of `idToChar` can be encoded. */
  lemma EncodableOver(idToChar: seq<char>, charToId: map<char, int>, s: string)
    requires Inverse(idToChar, charToId)
    requires forall i :: 0 <= i < |s| ==> s[i] in idToChar
    ensures Encode(charToId, s).Some?
  {
    forall i | 0 <= i < |s|
      ensures s[i] in charToId
    {
      assert s[i] in idToChar;
      var k :| 0 <= k < |idToChar| && idToChar[k] == s[i];
    }
  }
}
