/** The text side of the line store: what `write` emits (initool.cpp:215-216)
    and how `std::getline` in `load` (initool.cpp:185) splits a file back
    into lines. */
module LineIO {
  import opened Wrappers
  import opened Utility

  /** Every line followed by '\n', in order. */
  function Serialize(lines: seq<string>): string {
    if lines == [] then [] else lines[0] + "\n" + Serialize(lines[1..])
  }

  /** Appending one line appends that line and its '\n' to the text. */
  lemma {:induction false} SerializeSnoc(lines: seq<string>, l: string)
    ensures Serialize(lines + [l]) == Serialize(lines) + l + "\n"
  {
    if lines == [] {
      assert lines + [l] == [l];
    } else {
      assert (lines + [l])[1..] == lines[1..] + [l];
      SerializeSnoc(lines[1..], l);
    }
  }

  /** Repeated `std::getline`: every '\n' ends a line and is dropped; text
      after the last '\n' is one more line if it is not empty. */
  function SplitLines(text: string): seq<string>
    decreases |text|
  {
    if text == [] then []
    else match Find(text, '\n')
      case None => [text]
      case Some(p) => [text[..p]] + SplitLines(text[p + 1..])
  }

  predicate NoNewline(lines: seq<string>) {
    forall i :: 0 <= i < |lines| ==> '\n' !in lines[i]
  }

  /** Reading back what `write` wrote gives the same lines, provided no line
      holds a '\n' itself (lines that came from `getline` never do). */
  lemma {:induction false} SplitSerialize(lines: seq<string>)
    requires NoNewline(lines)
    ensures SplitLines(Serialize(lines)) == lines
  {
    if lines != [] {
      var l := lines[0];
      var text := Serialize(lines);
      assert text == l + "\n" + Serialize(lines[1..]);
      assert text[|l|] == '\n';
      assert text[..|l|] == l;
      assert Find(text, '\n') == Some(|l|);
      assert text[|l| + 1..] == Serialize(lines[1..]);
      SplitSerialize(lines[1..]);
    }
  }

  lemma PrefixCancel(a: string, x: string, y: string)
    ensures a + x == a + y <==> x == y
  {
    if a + x == a + y {
      assert x == (a + x)[|a|..];
      assert y == (a + y)[|a|..];
    }
  }

  /** One step of the reading loop: the text up to the first '\n' is a
      line, and reading goes on after it. */
  lemma SplitLinesStep(text: string, p: nat)
    requires Find(text, '\n') == Some(p)
    ensures SplitLines(text) == [text[..p]] + SplitLines(text[p + 1..])
  {
  }

  lemma CutAtNewline(text: string, p: nat)
    requires p < |text| && text[p] == '\n'
    ensures text == (text[..p] + "\n") + text[p + 1..]
  {
    assert text == text[..p] + [text[p]] + text[p + 1..];
  }

  lemma SerializeCons(l: string, rest: seq<string>)
    ensures Serialize([l] + rest) == l + "\n" + Serialize(rest)
  {
    assert ([l] + rest)[1..] == rest;
  }

  /** The other direction: a text is reproduced by splitting and writing it
      back exactly when it is empty or ends with '\n'. */
  lemma {:induction false} SerializeSplit(text: string)
    ensures Serialize(SplitLines(text)) == text <==> (text == [] || text[|text| - 1] == '\n')
    decreases |text|
  {
    if text != [] {
      var found := Find(text, '\n');
      if found.None? {
        assert SplitLines(text) == [text];
        SerializeCons(text, []);
        assert |Serialize(SplitLines(text))| == |text| + 1;
        assert text[|text| - 1] in text;
      } else {
        var p := found.value;
        var head, rest := text[..p], text[p + 1..];
        var written := Serialize(SplitLines(rest));
        SplitLinesStep(text, p);
        SerializeCons(head, SplitLines(rest));
        CutAtNewline(text, p);
        PrefixCancel(head + "\n", written, rest);
        SerializeSplit(rest);
        if rest != [] {
          assert text[|text| - 1] == rest[|rest| - 1];
        }
      }
    }
  }
}
