/** What `set` (initool.cpp:81-126) and `del` (initool.cpp:128-167) do to
    the line store and the index, as functions of the state before the call,
    and the properties of each edit. */
module Editing {
  import opened Wrappers
  import opened Utility
  import opened Loader

  // ---- set ----

  /** The line `set` writes for a new key, in the caller's case. */
  function NewKeyLine(key: string, value: string): string {
    key + " = " + QuoteIfNeeded(value)
  }

  /** The line `set` writes over an indexed key's line: the trimmed text
      before the first '=' (the whole line, as `substr(0, npos)` gives, when
      there is none), then " = " and the new value. */
  function RewrittenLine(line: string, value: string): string {
    var lhs := match Find(line, '=') case Some(pos) => line[..pos] case None => line;
    Trim(lhs) + " = " + QuoteIfNeeded(value)
  }

  /** The test of the insertion scan of `set` (initool.cpp:110-111): the
      trimmed line starts with '['. */
  predicate OpensBracket(line: string) {
    StartsWith(Trim(line), '[')
  }

  /** The first line from `i` on whose trimmed text starts with '[', or the
      end of the store: where the scan of `set` stops (initool.cpp:108-119). */
  function ScanForBracket(lines: seq<string>, i: nat): (stop: nat)
    requires i <= |lines|
    ensures i <= stop <= |lines|
    ensures forall j :: i <= j < stop ==> !OpensBracket(lines[j])
    ensures stop < |lines| ==> OpensBracket(lines[stop])
    decreases |lines| - i
  {
    if i == |lines| || OpensBracket(lines[i]) then i else ScanForBracket(lines, i + 1)
  }

  /** Where `set` inserts a new key of the section anchored at `anchor`: the
      stop of the scan, one line earlier when the scan stopped at a '[' line
      whose predecessor is blank and is not the anchor line. */
  function InsertPosition(lines: seq<string>, anchor: nat): (p: nat)
    requires anchor < |lines|
    ensures anchor < p <= |lines|
    ensures forall j :: anchor < j < p ==> !OpensBracket(lines[j])
  {
    var stop := ScanForBracket(lines, anchor + 1);
    if stop < |lines| && stop > anchor + 1 && Trim(lines[stop - 1]) == [] then stop - 1 else stop
  }

  /** The insertion scan of `set` (initool.cpp:108-119) as written: walk
      down from the line after the anchor to the first '[' line, stepping
      back over one blank line when there is room; it finds `InsertPosition`. */
  method ScanInsertPosition(lines: seq<string>, anchor: nat) returns (insertAt: nat)
    requires anchor < |lines|
    ensures insertAt == InsertPosition(lines, anchor)
  {
    insertAt := anchor + 1;
    while insertAt < |lines|
      invariant anchor < insertAt <= |lines|
      invariant ScanForBracket(lines, insertAt) == ScanForBracket(lines, anchor + 1)
      decreases |lines| - insertAt
    {
      var t := Trim(lines[insertAt]);
      if StartsWith(t, '[') {
        assert ScanForBracket(lines, insertAt) == insertAt;
        if insertAt > anchor + 1 && Trim(lines[insertAt - 1]) == [] {
          StepBack(lines, anchor, insertAt);
          insertAt := insertAt - 1;
        } else {
          NoStepBack(lines, anchor, insertAt);
        }
        return;
      }
      insertAt := insertAt + 1;
    }
  }

  /** Where a new key of the section anchored at `anchor` lands: after the
      anchor and every line before it that is not a '[' line; then either at
      the end, or on the first '[' line when the line before it is not a
      blank one that can be stepped back over, or on a blank line right
      before the first '[' line. */
  predicate LandsInSection(lines: seq<string>, anchor: nat, p: nat) {
    && anchor < p <= |lines|
    && (forall j :: anchor < j < p ==> !OpensBracket(lines[j]))
    && (p < |lines| ==>
          || (OpensBracket(lines[p]) && !(p > anchor + 1 && Trim(lines[p - 1]) == []))
          || (Trim(lines[p]) == [] && p + 1 < |lines| && OpensBracket(lines[p + 1])))
  }

  /** A stop meeting the scan's contract is the scan's stop. */
  lemma {:induction false} ScanStopsAt(lines: seq<string>, i: nat, stop: nat)
    requires i <= stop <= |lines|
    requires forall j :: i <= j < stop ==> !OpensBracket(lines[j])
    requires stop < |lines| ==> OpensBracket(lines[stop])
    ensures ScanForBracket(lines, i) == stop
    decreases stop - i
  {
    if i < stop {
      ScanStopsAt(lines, i + 1, stop);
    }
  }

  /** A blank line is not a '[' line. */
  lemma BlankNotBracket(line: string)
    requires Trim(line) == []
    ensures !OpensBracket(line)
  {
  }

  /** `InsertPosition` when the scan stops at `stop` and steps back. */
  lemma StepBack(lines: seq<string>, anchor: nat, stop: nat)
    requires anchor + 1 < stop < |lines| && ScanForBracket(lines, anchor + 1) == stop
    requires Trim(lines[stop - 1]) == []
    ensures InsertPosition(lines, anchor) == stop - 1
  {
    var p := InsertPosition(lines, anchor);
    assert stop < |lines| && stop > anchor + 1 && Trim(lines[stop - 1]) == [];
  }

  /** `InsertPosition` when the scan stops at `stop` and does not step back. */
  lemma NoStepBack(lines: seq<string>, anchor: nat, stop: nat)
    requires anchor < |lines| && ScanForBracket(lines, anchor + 1) == stop
    requires !(stop < |lines| && stop > anchor + 1 && Trim(lines[stop - 1]) == [])
    ensures InsertPosition(lines, anchor) == stop
  {
  }

  /** The key `set` inserts lands where `LandsInSection` says. */
  lemma InsertPositionLands(lines: seq<string>, anchor: nat)
    requires anchor < |lines|
    ensures LandsInSection(lines, anchor, InsertPosition(lines, anchor))
  {
    var stop := ScanForBracket(lines, anchor + 1);
    if stop < |lines| && stop > anchor + 1 && Trim(lines[stop - 1]) == [] {
      StepBack(lines, anchor, stop);
    } else {
      NoStepBack(lines, anchor, stop);
    }
  }

  /** No other position meets `LandsInSection`. */
  lemma InsertPositionExact(lines: seq<string>, anchor: nat, q: nat)
    requires anchor < |lines| && LandsInSection(lines, anchor, q)
    ensures q == InsertPosition(lines, anchor)
  {
    if q == |lines| {
      ScanStopsAt(lines, anchor + 1, q);
      NoStepBack(lines, anchor, q);
    } else if Trim(lines[q]) == [] {
      BlankStop(lines, anchor, q);
      StepBack(lines, anchor, q + 1);
    } else {
      BracketStop(lines, anchor, q);
      NoStepBack(lines, anchor, q);
    }
  }

  /** The scan passes a blank line that lies right before a '[' line. */
  lemma BlankStop(lines: seq<string>, anchor: nat, q: nat)
    requires anchor < q && q + 1 < |lines|
    requires forall j :: anchor < j < q ==> !OpensBracket(lines[j])
    requires Trim(lines[q]) == [] && OpensBracket(lines[q + 1])
    ensures ScanForBracket(lines, anchor + 1) == q + 1
  {
    BlankNotBracket(lines[q]);
    ScanStopsAt(lines, anchor + 1, q + 1);
  }

  /** The scan stops at a '[' line of a `LandsInSection` position that is not blank. */
  lemma BracketStop(lines: seq<string>, anchor: nat, q: nat)
    requires anchor < |lines| && LandsInSection(lines, anchor, q) && q < |lines| && Trim(lines[q]) != []
    ensures ScanForBracket(lines, anchor + 1) == q
    ensures !(q > anchor + 1 && Trim(lines[q - 1]) == [])
  {
    assert OpensBracket(lines[q]);
    ScanStopsAt(lines, anchor + 1, q);
  }

  /** `lines` with `line` inserted before position `p`. */
  function InsertAt<T>(s: seq<T>, p: nat, x: T): seq<T>
    requires p <= |s|
  {
    s[..p] + [x] + s[p..]
  }

  /** The new-section branch (initool.cpp:87-93). */
  function AppendSection(lines: seq<string>, section: string, key: string, value: string): seq<string> {
    var separator := if |lines| > 0 && Trim(lines[|lines| - 1]) != [] then [""] else [];
    lines + separator + ["[" + section + "]", NewKeyLine(key, value)]
  }

  /** The line store after `set(section, key, value)`. */
  function SetLines(lines: seq<string>, sections: map<string, nat>, keyLines: map<string, map<string, nat>>,
                    section: string, key: string, value: string): seq<string>
    requires InBounds(|lines|, sections, keyLines)
  {
    var sec, k := ToLower(section), ToLower(key);
    if sec !in sections then AppendSection(lines, section, key, value)
    else if k in Table(keyLines, sec) then
      var lineNo := Table(keyLines, sec)[k];
      lines[lineNo := RewrittenLine(lines[lineNo], value)]
    else InsertAt(lines, InsertPosition(lines, sections[sec]), NewKeyLine(key, value))
  }

  /** The key-line table after `set`: `key_lines_[sec_lower]` (initool.cpp:97)
      adds an empty table for a known section that has none. */
  function SetKeyLines(sections: map<string, nat>, keyLines: map<string, map<string, nat>>,
                       section: string): map<string, map<string, nat>>
  {
    var sec := ToLower(section);
    if sec in sections && sec !in keyLines then keyLines[sec := map[]] else keyLines
  }

  /** `set` keeps every stored line number within the lines. */
  lemma SetKeepsInBounds(lines: seq<string>, sections: map<string, nat>, keyLines: map<string, map<string, nat>>,
                         section: string, key: string, value: string)
    requires InBounds(|lines|, sections, keyLines)
    ensures |SetLines(lines, sections, keyLines, section, key, value)| >= |lines|
    ensures InBounds(|SetLines(lines, sections, keyLines, section, key, value)|, sections,
                     SetKeyLines(sections, keyLines, section))
  {
  }

  /** Unknown section: the old lines stay as a prefix, one blank separator
      follows exactly when the last line is not blank, then the header and
      the key line, both in the caller's case. */
  lemma SetNewSection(lines: seq<string>, sections: map<string, nat>, keyLines: map<string, map<string, nat>>,
                      section: string, key: string, value: string)
    requires InBounds(|lines|, sections, keyLines)
    requires ToLower(section) !in sections
    ensures var r := SetLines(lines, sections, keyLines, section, key, value);
            var separated := |lines| > 0 && Trim(lines[|lines| - 1]) != [];
            && |r| == |lines| + (if separated then 3 else 2)
            && r[..|lines|] == lines
            && (separated ==> r[|lines|] == "")
            && r[|r| - 2] == "[" + section + "]"
            && r[|r| - 1] == key + " = " + QuoteIfNeeded(value)
  {
  }

  /** Indexed key: the number of lines is unchanged and only the key's line
      changes, to its trimmed left-hand side, " = " and the new value. */
  lemma SetExistingKey(lines: seq<string>, sections: map<string, nat>, keyLines: map<string, map<string, nat>>,
                       section: string, key: string, value: string)
    requires InBounds(|lines|, sections, keyLines)
    requires ToLower(section) in sections && ToLower(key) in Table(keyLines, ToLower(section))
    ensures var r := SetLines(lines, sections, keyLines, section, key, value);
            var lineNo := keyLines[ToLower(section)][ToLower(key)];
            && |r| == |lines|
            && (forall i :: 0 <= i < |lines| && i != lineNo ==> r[i] == lines[i])
            && r[lineNo] == RewrittenLine(lines[lineNo], value)
  {
  }

  /** Known section, absent key: exactly one line, the new key line, goes in
      at a position after the anchor that no '[' line precedes, and all
      other lines keep their order. */
  lemma SetNewKey(lines: seq<string>, sections: map<string, nat>, keyLines: map<string, map<string, nat>>,
                  section: string, key: string, value: string)
    requires InBounds(|lines|, sections, keyLines)
    requires ToLower(section) in sections && ToLower(key) !in Table(keyLines, ToLower(section))
    ensures var r := SetLines(lines, sections, keyLines, section, key, value);
            var anchor := sections[ToLower(section)];
            exists p :: anchor < p <= |lines| && p == InsertPosition(lines, anchor)
                        && |r| == |lines| + 1
                        && r[..p] == lines[..p]
                        && r[p] == key + " = " + QuoteIfNeeded(value)
                        && r[p + 1..] == lines[p..]
  {
    var anchor := sections[ToLower(section)];
    var p := InsertPosition(lines, anchor);
    var r := SetLines(lines, sections, keyLines, section, key, value);
    assert r == lines[..p] + [NewKeyLine(key, value)] + lines[p..];
    assert r[p + 1..] == lines[p..];
  }

  // ---- del ----

  /** The renumbering of `del` (initool.cpp:152-164): a line number above
      the erased line moves down by one. */
  function Dec(n: nat, erased: nat): nat {
    if n > erased then n - 1 else n
  }

  function ShiftLines(m: map<string, nat>, erased: nat): map<string, nat> {
    map s | s in m :: Dec(m[s], erased)
  }

  function ShiftKeyLines(m: map<string, map<string, nat>>, erased: nat): map<string, map<string, nat>> {
    map s | s in m :: ShiftLines(m[s], erased)
  }

  /** A renumbering loop of `del` over one table of line numbers
      (initool.cpp:153-157 for a section's keys, 160-164 for the anchors). */
  method Renumber(m: map<string, nat>, erased: nat) returns (r: map<string, nat>)
    ensures r == ShiftLines(m, erased)
  {
    r := m;
    var pending := m.Keys;
    while pending != {}
      invariant pending <= m.Keys
      invariant r.Keys == m.Keys
      invariant forall k :: k in r && k !in pending ==> r[k] == Dec(m[k], erased)
      invariant forall k :: k in pending ==> r[k] == m[k]
      decreases pending
    {
      var k :| k in pending;
      if r[k] > erased {
        r := r[k := r[k] - 1];
      }
      pending := pending - {k};
    }
  }

  /** The outer renumbering loop of `del` (initool.cpp:152-158): every
      section's key table is renumbered. */
  method RenumberKeyLines(m: map<string, map<string, nat>>, erased: nat) returns (r: map<string, map<string, nat>>)
    ensures r == ShiftKeyLines(m, erased)
  {
    r := m;
    var todo := m.Keys;
    while todo != {}
      invariant todo <= m.Keys
      invariant r.Keys == m.Keys
      invariant forall s :: s in r && s !in todo ==> r[s] == ShiftLines(m[s], erased)
      invariant forall s :: s in todo ==> r[s] == m[s]
      decreases todo
    {
      var sec :| sec in todo;
      var keys := Renumber(r[sec], erased);
      r := r[sec := keys];
      todo := todo - {sec};
    }
  }

  /** `lines_.erase(lines_.begin() + p)`. */
  function RemoveAt<T>(s: seq<T>, p: nat): seq<T>
    requires p < |s|
  {
    s[..p] + s[p + 1..]
  }

  /** After the erase, a renumbered line number still names the same text. */
  lemma RemoveAtShift<T>(s: seq<T>, p: nat, n: nat)
    requires p < |s| && n < |s| && n != p
    ensures Dec(n, p) < |RemoveAt(s, p)| && RemoveAt(s, p)[Dec(n, p)] == s[n]
  {
  }

  /** Erasing a line erases its kind. */
  lemma KindsRemoveAt(lines: seq<string>, p: nat)
    requires p < |lines|
    ensures Kinds(RemoveAt(lines, p)) == RemoveAt(Kinds(lines), p)
  {
    var before, after := lines[..p], lines[p + 1..];
    assert lines == before + [lines[p]] + after;
    KindsAppend(before + [lines[p]], after);
    KindsAppend(before, [lines[p]]);
    KindsAppend(before, after);
    var ks := Kinds(lines);
    assert ks == Kinds(before) + Kinds([lines[p]]) + Kinds(after);
    assert ks[..p] == Kinds(before);
    assert ks[p + 1..] == Kinds(after);
  }

  /** Renumbering keeps the anchors on their headers. */
  lemma ShiftKeepsAnchors(kinds: seq<LineKind>, sections: map<string, nat>, lineNo: nat)
    requires lineNo < |kinds| && !kinds[lineNo].Header?
    requires forall s :: s in sections ==> sections[s] < |kinds| && kinds[sections[s]] == Header(s)
    ensures var kinds', sections' := RemoveAt(kinds, lineNo), ShiftLines(sections, lineNo);
            forall s :: s in sections' ==> sections'[s] < |kinds'| && kinds'[sections'[s]] == Header(s)
  {
    forall t | t in sections
      ensures Dec(sections[t], lineNo) < |kinds| - 1
      ensures RemoveAt(kinds, lineNo)[Dec(sections[t], lineNo)] == Header(t)
    {
      RemoveAtShift(kinds, lineNo, sections[t]);
    }
  }

  /** Removing one pair and renumbering keeps every other pair on a line
      that assigns it its stored value. */
  lemma ShiftKeepsData(kinds: seq<LineKind>, keyLines: map<string, map<string, nat>>,
                       data: map<string, map<string, string>>, s: string, k: string)
    requires DataMatchesLines(kinds, keyLines, data) && DistinctKeyLines(keyLines)
    requires s in keyLines && k in keyLines[s]
    ensures var lineNo := keyLines[s][k];
            DataMatchesLines(RemoveAt(kinds, lineNo), ShiftKeyLines(keyLines[s := keyLines[s] - {k}], lineNo),
                             data[s := data[s] - {k}])
  {
    var lineNo := keyLines[s][k];
    var kinds' := RemoveAt(kinds, lineNo);
    var removed := keyLines[s := keyLines[s] - {k}];
    var data' := data[s := data[s] - {k}];
    ShiftKeepsKeys(keyLines, data, s, k);
    var shifted := ShiftKeyLines(removed, lineNo);
    forall t, j | t in shifted && j in shifted[t]
      ensures shifted[t][j] < |kinds'| && kinds'[shifted[t][j]] == Assignment(j, data'[t][j])
    {
      assert shifted[t][j] == Dec(keyLines[t][j], lineNo);
      assert keyLines[t][j] != lineNo;
      RemoveAtShift(kinds, lineNo, keyLines[t][j]);
    }
  }

  /** Removing a pair from both tables, then renumbering, leaves the two
      tables with the same sections and keys. */
  lemma ShiftKeepsKeys(keyLines: map<string, map<string, nat>>, data: map<string, map<string, string>>,
                       s: string, k: string)
    requires keyLines.Keys == data.Keys && (forall t :: t in keyLines ==> keyLines[t].Keys == data[t].Keys)
    requires s in keyLines && k in keyLines[s]
    ensures var shifted := ShiftKeyLines(keyLines[s := keyLines[s] - {k}], keyLines[s][k]);
            var data' := data[s := data[s] - {k}];
            && shifted.Keys == data'.Keys
            && forall t :: t in shifted ==> shifted[t].Keys == data'[t].Keys
  {
  }

  /** Renumbering keeps key lines distinct once the erased line's own entry
      is gone. */
  lemma ShiftKeepsDistinct(keyLines: map<string, map<string, nat>>, s: string, k: string)
    requires DistinctKeyLines(keyLines)
    requires s in keyLines && k in keyLines[s]
    ensures DistinctKeyLines(ShiftKeyLines(keyLines[s := keyLines[s] - {k}], keyLines[s][k]))
  {
    var lineNo := keyLines[s][k];
    var removed := keyLines[s := keyLines[s] - {k}];
    var shifted := ShiftKeyLines(removed, lineNo);
    forall t1, j1, t2, j2 | t1 in shifted && j1 in shifted[t1] && t2 in shifted && j2 in shifted[t2]
                             && shifted[t1][j1] == shifted[t2][j2]
      ensures t1 == t2 && j1 == j2
    {
      assert removed[t1][j1] == keyLines[t1][j1] != lineNo;
      assert removed[t2][j2] == keyLines[t2][j2] != lineNo;
    }
  }

  /** `del` keeps the index consistent: erasing the key's line, removing the
      key from both tables and renumbering every entry above the line leaves
      every remaining entry on the same text and within the lines. */
  lemma DeleteKeepsConsistent(kinds: seq<LineKind>, sections: map<string, nat>,
                              keyLines: map<string, map<string, nat>>,
                              data: map<string, map<string, string>>, s: string, k: string)
    requires Consistent(kinds, sections, keyLines, data)
    requires s in keyLines && k in keyLines[s]
    ensures var lineNo := keyLines[s][k];
            Consistent(RemoveAt(kinds, lineNo), ShiftLines(sections, lineNo),
                       ShiftKeyLines(keyLines[s := keyLines[s] - {k}], lineNo),
                       data[s := data[s] - {k}])
  {
    var lineNo := keyLines[s][k];
    assert kinds[lineNo] == Assignment(k, data[s][k]);
    ShiftKeepsAnchors(kinds, sections, lineNo);
    ShiftKeepsData(kinds, keyLines, data, s, k);
    ShiftKeepsDistinct(keyLines, s, k);
  }
}
