/**
  A reader of the binary values format: it follows only the lengths the sections
  state, and is what the files of both writers are measured by.
 */
module WitnessReader {
  import opened Wrappers
  import opened Modulus
  import opened WordArrays
  import opened WitnessFile

  datatype Section = Section(id: nat, content: seq<Word32>)

  /** Exactly n sections, each an id, a length in bytes of 64 bits, and the content, and nothing after them. */
  function ReadSections(s: seq<Word32>, n: nat): Option<seq<Section>>
    decreases n
  {
    if n == 0 then if s == [] then Some([]) else None
    else if |s| < 3 then None
    else
      var length := LittleEndian(s[1..3]);
      if length % 4 != 0 || 4 * (|s| - 3) < length then None
      else
        match ReadSections(s[3 + length / 4..], n - 1)
        case None => None
        case Some(rest) => Some([Section(s[0], s[3..3 + length / 4])] + rest)
  }

  function ReadValues(s: seq<Word32>): seq<nat> {
    if |s| < 8 then [] else [LittleEndian(s[..8])] + ReadValues(s[8..])
  }

  /** The prime and the values of a file, if it is well formed. */
  function ReadWitness(file: seq<Word32>): Option<(nat, seq<nat>)> {
    if |file| < 3 || file[0] != 0x736e7477 || file[1] != 2 || file[2] != 2 then None
    else
      match ReadSections(file[3..], 2)
      case None => None
      case Some(sections) =>
        if |sections| != 2 then None
        else
          var header, data := sections[0], sections[1];
          if header.id != 1 || |header.content| != 10 || header.content[0] != 32 || data.id != 2
             || |data.content| != 8 * (header.content[9] as nat) then None
          else Some((LittleEndian(header.content[1..9]), ReadValues(data.content)))
  }

  /** A section whose length is right is read, and reading goes on behind it. */
  lemma SectionRead(id: Word32, length: seq<Word32>, content: seq<Word32>, rest: seq<Word32>, n: nat)
    requires |length| == 2 && n > 0 && LittleEndian(length) == 4 * |content|
    ensures ReadSections([id] + length + content + rest, n)
            == match ReadSections(rest, n - 1)
               case None => None
               case Some(sections) => Some([Section(id, content)] + sections)
  {
    var s := [id] + length + content + rest;
    assert s[1..3] == length;
    assert s[3..3 + |content|] == content && s[3 + |content|..] == rest;
  }

  /** A last section whose length is wrong leaves words over or asks for too many. */
  lemma LastSection(id: Word32, length: seq<Word32>, content: seq<Word32>)
    requires |length| == 2
    ensures ReadSections([id] + length + content, 1)
            == if LittleEndian(length) == 4 * |content| then Some([Section(id, content)]) else None
  {
    hide LittleEndian, ReadSections;
    var s := [id] + length + content;
    assert s[1..3] == length && s[3..] == content;
    var l := LittleEndian(length);
    LastStep(s, l);
    if l % 4 == 0 && l <= 4 * |content| {
      var m := l / 4;
      assert s[3..3 + m] == content[..m] && s[3 + m..] == content[m..];
      assert m == |content| ==> content[..m] == content && content[m..] == [];
    }
  }

  lemma LastStep(s: seq<Word32>, l: nat)
    requires |s| >= 3 && l == LittleEndian(s[1..3])
    ensures ReadSections(s, 1)
            == if l % 4 != 0 || 4 * (|s| - 3) < l || s[3 + l / 4..] != [] then None else Some([Section(s[0], s[3..3 + l / 4])])
  {
    hide LittleEndian;
    if l % 4 == 0 && l <= 4 * (|s| - 3) {
      NothingOver(s[3 + l / 4..]);
      var section := Section(s[0], s[3..3 + l / 4]);
      assert [section] + [] == [section];
    }
  }

  lemma NothingOver(s: seq<Word32>)
    ensures ReadSections(s, 0) == if s == [] then Some([]) else None
  {
  }

  lemma {:induction false} ValuesRead(s: seq<Word32>, values: seq<nat>)
    requires |s| == 8 * |values|
    requires forall k :: 0 <= k < |values| ==> LittleEndian(s[8 * k..8 * k + 8]) == values[k]
    ensures ReadValues(s) == values
    decreases |values|
  {
    if values != [] {
      var t, rest := s[8..], values[1..];
      forall k | 0 <= k < |rest|
        ensures LittleEndian(t[8 * k..8 * k + 8]) == rest[k]
      {
        assert t[8 * k..8 * k + 8] == s[8 * (k + 1)..8 * (k + 1) + 8];
      }
      ValuesRead(t, rest);
      assert LittleEndian(s[8 * 0..8 * 0 + 8]) == values[0];
    }
  }

  /** Either layout is read back exactly when its second length is that of the values. */
  lemma LayoutRead(length2: seq<Word32>, values: seq<nat>)
    requires |length2| == 2 && Canonical(values)
    ensures ReadWitness(Layout([40, 0], length2, values))
            == if LittleEndian(length2) == 32 * |values| then Some((Q, values)) else None
  {
    hide ReadSections, LittleEndian, Cells, WordsOf, ReadValues;
    var file, cells := Layout([40, 0], length2, values), Cells(values);
    LayoutMeans(length2, values, file);
    var content := file[6..16];
    HeaderLength();
    assert file[3..] == [1] + [40, 0] + content + ([2] + length2 + cells) by {
      LayoutPieces(length2, values, file);
    }
    SectionRead(1, [40, 0], content, [2] + length2 + cells, 2);
    LastSection(2, length2, cells);
    assert content[1..9] == file[7..15];
    forall k | 0 <= k < |values|
      ensures LittleEndian(cells[8 * k..8 * k + 8]) == values[k]
    {
      CellsOfLayout([40, 0], length2, values);
      assert cells[8 * k..8 * k + 8] == file[19 + 8 * k..27 + 8 * k];
    }
    ValuesRead(cells, values);
  }

  lemma HeaderLength()
    ensures LittleEndian([40, 0]) == 40
  {
    LittleEndianPair(40, 0);
  }

  lemma LayoutPieces(length2: seq<Word32>, values: seq<nat>, file: seq<Word32>)
    requires |length2| == 2 && Canonical(values) && file == Layout([40, 0], length2, values)
    ensures file[3..] == [1] + [40, 0] + file[6..16] + ([2] + length2 + Cells(values))
  {
    hide Cells, WordsOf;
    CellsOfLayout([40, 0], length2, values);
    LayoutMeans(length2, values, file);
    assert file[3..] == file[3..6] + file[6..16] + file[16..19] + file[19..];
    assert file[3..6] == [1, 40, 0] && file[16..19] == [2] + length2;
  }

  /** What the native writer writes is read back, always. */
  lemma NativeReadsBack(values: seq<nat>)
    requires Canonical(values)
    ensures ReadWitness(NativeFile(values)) == Some((Q, values))
  {
    FirstLength();
    LayoutRead(NativeLength(N8 * |values|), values);
  }

  /** What the script writes is read back exactly when the data section is shorter than 2^32 bytes. */
  lemma ScriptReadsBack(values: seq<nat>)
    requires Canonical(values)
    ensures ReadWitness(ScriptFile(values)) == Some((Q, values)) <==> 32 * |values| < 0x1_0000_0000
  {
    FirstLength();
    LayoutRead(ScriptLength(N8 * |values|), values);
    LengthsAgree(|values|);
    if LittleEndian(ScriptLength(N8 * |values|)) == N8 * |values| {
      WordsDetermined(ScriptLength(N8 * |values|), NativeLength(N8 * |values|));
    }
  }

  lemma WordsDetermined(x: seq<Word32>, y: seq<Word32>)
    requires |x| == |y| && LittleEndian(x) == LittleEndian(y)
    ensures x == y
  {
    WordsOfLittleEndian(x);
    WordsOfLittleEndian(y);
  }
}
