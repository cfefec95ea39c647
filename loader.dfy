/** `load` (initool.cpp:176-207) as a fold over the lines, the index it
    builds, and what that index means in terms of the lines themselves. */
module Loader {
  import opened Wrappers
  import opened Utility

  /** How `load` treats one line, judged on its trimmed text alone. */
  datatype LineKind =
    | Skipped                                  // blank, or starts with ';'
    | Header(name: string)                     // `[ name ]`, name trimmed and folded
    | Assignment(key: string, value: string)   // `key = value`, split at the first '='
    | Unrecognized                             // anything else

  /** The branches of the loop body of `load` (initool.cpp:187-205). */
  function Classify(line: string): LineKind {
    ClassifyTrimmed(Trim(line))
  }

  /** The same branches, on the trimmed line (initool.cpp:188-204). */
  function ClassifyTrimmed(t: string): LineKind {
    if t == [] || StartsWith(t, ';') then Skipped
    else if IsSectionHeader(t) then Header(ToLower(Trim(t[1..|t| - 1])))
    else match Find(t, '=')
      case Some(pos) => Assignment(ToLower(Trim(t[..pos])), Unquote(Trim(t[pos + 1..])))
      case None => Unrecognized
  }

  /** A line is an assignment exactly when its trimmed text is non-blank,
      does not start with ';', is not a section header and holds a '='. */
  lemma ClassifyAssignment(line: string)
    ensures Classify(line).Assignment? <==>
      var t := Trim(line);
      t != [] && !StartsWith(t, ';') && !IsSectionHeader(t) && '=' in t
  {
  }

  /** `f` applied to every element of `s`, in order. */
  function MapSeq<A, B>(f: A -> B, s: seq<A>): (r: seq<B>)
    ensures |r| == |s|
  {
    if s == [] then [] else MapSeq(f, s[..|s| - 1]) + [f(s[|s| - 1])]
  }

  lemma {:induction false} MapSeqAt<A, B>(f: A -> B, s: seq<A>, i: nat)
    requires i < |s|
    ensures MapSeq(f, s)[i] == f(s[i])
  {
    if i < |s| - 1 {
      MapSeqAt(f, s[..|s| - 1], i);
    }
  }

  lemma {:induction false} MapSeqAppend<A, B>(f: A -> B, a: seq<A>, b: seq<A>)
    ensures MapSeq(f, a + b) == MapSeq(f, a) + MapSeq(f, b)
    decreases |b|
  {
    if b == [] {
      assert a + b == a;
    } else {
      var init := b[..|b| - 1];
      assert (a + b)[..|a + b| - 1] == a + init;
      assert (a + b)[|a + b| - 1] == b[|b| - 1];
      MapSeqAppend(f, a, init);
    }
  }

  /** How `load` sees a whole file: the kind of every line, in order. */
  function Kinds(lines: seq<string>): (ks: seq<LineKind>)
    ensures |ks| == |lines|
  {
    MapSeq(Classify, lines)
  }

  /** Each kind is the classification of its line. */
  lemma KindAt(lines: seq<string>, i: nat)
    requires i < |lines|
    ensures Kinds(lines)[i] == Classify(lines[i])
  {
    MapSeqAt(Classify, lines, i);
  }

  /** Classifying is line by line: the kinds of two files one after the
      other are the kinds of the first, then those of the second. */
  lemma KindsAppend(a: seq<string>, b: seq<string>)
    ensures Kinds(a + b) == Kinds(a) + Kinds(b)
  {
    MapSeqAppend(Classify, a, b);
  }

  /** The table of a section, or an empty one: what `operator[]` yields. */
  function Table<V>(m: map<string, map<string, V>>, s: string): map<string, V> {
    if s in m then m[s] else map[]
  }

  /** The state of `load` between two lines: the current section and the
      three maps of `IniFile`. */
  datatype LoadState = LoadState(
    current: string,
    sections: map<string, nat>,
    keyLines: map<string, map<string, nat>>,
    data: map<string, map<string, string>>)

  const Start := LoadState("", map[], map[], map[])

  /** One iteration of the loop of `load`, on line number `lineno` of kind `kind`. */
  function Step(st: LoadState, kind: LineKind, lineno: nat): LoadState {
    match kind
    case Header(name) =>
      st.(current := name, sections := st.sections[name := lineno])
    case Assignment(k, v) =>
      if st.current == [] then st
      else st.(data := st.data[st.current := Table(st.data, st.current)[k := v]],
               keyLines := st.keyLines[st.current := Table(st.keyLines, st.current)[k := lineno]])
    case _ => st
  }

  /** `Step` after `Classify`, spelled out along the branches of the loop
      body of `load` (initool.cpp:189-204): a blank or comment line and an
      unusable line change nothing, a header moves to its section and
      records its line, an assignment in a named section records its value
      and its line. */
  lemma StepOfLine(st: LoadState, line: string, t: string, lineno: nat)
    requires t == Trim(line)
    ensures t == [] || StartsWith(t, ';') ==> Step(st, Classify(line), lineno) == st
    ensures t != [] && !StartsWith(t, ';') && IsSectionHeader(t) ==>
              var name := ToLower(Trim(t[1..|t| - 1]));
              Step(st, Classify(line), lineno) == st.(current := name, sections := st.sections[name := lineno])
    ensures t != [] && !StartsWith(t, ';') && !IsSectionHeader(t) && (st.current == [] || '=' !in t) ==>
              Step(st, Classify(line), lineno) == st
    ensures t != [] && !StartsWith(t, ';') && !IsSectionHeader(t) && st.current != [] && Find(t, '=').Some? ==>
              var pos := Find(t, '=').value;
              var key := ToLower(Trim(t[..pos]));
              var val := Unquote(Trim(t[pos + 1..]));
              Step(st, Classify(line), lineno)
              == st.(data := st.data[st.current := Table(st.data, st.current)[key := val]],
                     keyLines := st.keyLines[st.current := Table(st.keyLines, st.current)[key := lineno]])
  {
    assert Classify(line) == ClassifyTrimmed(t);
    if t == [] || StartsWith(t, ';') {
    } else if IsSectionHeader(t) {
      assert ClassifyTrimmed(t) == Header(ToLower(Trim(t[1..|t| - 1])));
    } else {
      match Find(t, '=')
      case None =>
        assert ClassifyTrimmed(t) == Unrecognized;
      case Some(pos) =>
        assert ClassifyTrimmed(t) == Assignment(ToLower(Trim(t[..pos])), Unquote(Trim(t[pos + 1..])));
    }
  }

  /** The state after the first `n` lines, given the kinds of the lines. */
  function Fold(kinds: seq<LineKind>, n: nat): LoadState
    requires n <= |kinds|
  {
    if n == 0 then Start else Step(Fold(kinds, n - 1), kinds[n - 1], n - 1)
  }

  /** One more line of the file is one more step of the fold. */
  lemma FoldNext(lines: seq<string>, n: nat)
    requires n < |lines|
    ensures Fold(Kinds(lines), n + 1) == Step(Fold(Kinds(lines), n), Classify(lines[n]), n)
  {
    KindAt(lines, n);
  }

  /** The index `load` builds from the lines of a file. */
  function Load(lines: seq<string>): LoadState {
    Fold(Kinds(lines), |lines|)
  }

  // ---- A reference description of the index, line by line ----

  /** The section in effect after the first `n` lines: the name of the last
      header among them, or "" when there is none. */
  function SectionBefore(kinds: seq<LineKind>, n: nat): string
    requires n <= |kinds|
  {
    if n == 0 then ""
    else match kinds[n - 1]
      case Header(name) => name
      case _ => SectionBefore(kinds, n - 1)
  }

  /** The (section, key) pair that line `j` assigns, if `load` indexes it:
      an assignment under a non-empty current section. */
  function KeyAt(kinds: seq<LineKind>, j: nat): Option<(string, string)>
    requires j < |kinds|
  {
    match kinds[j]
    case Assignment(k, _) =>
      var s := SectionBefore(kinds, j);
      if s == [] then None else Some((s, k))
    case _ => None
  }

  /** The anchors are the last header of each name among the first `n`
      lines, and every header name there has one. */
  ghost predicate AnchorsAreLastHeaders(kinds: seq<LineKind>, n: nat, sections: map<string, nat>)
    requires n <= |kinds|
  {
    && (forall s :: s in sections ==>
          && sections[s] < n
          && kinds[sections[s]] == Header(s)
          && forall j :: sections[s] < j < n ==> kinds[j] != Header(s))
    && (forall j :: 0 <= j < n && kinds[j].Header? ==> kinds[j].name in sections)
  }

  /** The key lines are the last line assigning each (section, key) pair
      among the first `n` lines, and every indexed pair there has one. */
  ghost predicate KeyLinesAreLastAssignments(kinds: seq<LineKind>, n: nat,
                                             keyLines: map<string, map<string, nat>>)
    requires n <= |kinds|
  {
    && (forall s, k :: s in keyLines && k in keyLines[s] ==>
          && keyLines[s][k] < n
          && KeyAt(kinds, keyLines[s][k]) == Some((s, k))
          && forall j :: keyLines[s][k] < j < n ==> KeyAt(kinds, j) != Some((s, k)))
    && (forall j :: 0 <= j < n && KeyAt(kinds, j).Some? ==>
          KeyAt(kinds, j).value.0 in keyLines && KeyAt(kinds, j).value.1 in keyLines[KeyAt(kinds, j).value.0])
  }

  /** `data_` has the same pairs as `key_lines_`, and each value is the one
      written on the pair's line. */
  ghost predicate DataMatchesLines(kinds: seq<LineKind>, keyLines: map<string, map<string, nat>>,
                                   data: map<string, map<string, string>>)
  {
    && keyLines.Keys == data.Keys
    && (forall s :: s in keyLines ==> keyLines[s].Keys == data[s].Keys)
    && (forall s, k :: s in keyLines && k in keyLines[s] ==>
          keyLines[s][k] < |kinds| && kinds[keyLines[s][k]] == Assignment(k, data[s][k]))
  }

  /** The current section of `load` is the reference one. */
  lemma {:induction false} FoldCurrent(kinds: seq<LineKind>, n: nat)
    requires n <= |kinds|
    ensures Fold(kinds, n).current == SectionBefore(kinds, n)
  {
    if n > 0 { FoldCurrent(kinds, n - 1); }
  }

  /** What `load` records for sections after `n` lines. */
  lemma {:induction false} FoldSections(kinds: seq<LineKind>, n: nat)
    requires n <= |kinds|
    ensures AnchorsAreLastHeaders(kinds, n, Fold(kinds, n).sections)
  {
    if n > 0 { FoldSections(kinds, n - 1); }
  }

  /** What `load` records for key lines after `n` lines. */
  lemma {:induction false} FoldKeyLines(kinds: seq<LineKind>, n: nat)
    requires n <= |kinds|
    ensures KeyLinesAreLastAssignments(kinds, n, Fold(kinds, n).keyLines)
  {
    if n > 0 {
      var m := n - 1;
      FoldKeyLines(kinds, m);
      FoldCurrent(kinds, m);
      var st := Fold(kinds, m);
      var before, after := st.keyLines, Fold(kinds, n).keyLines;
      if kinds[m].Assignment? && st.current != [] {
        var cur, k := st.current, kinds[m].key;
        assert KeyAt(kinds, m) == Some((cur, k));
        assert after == before[cur := Table(before, cur)[k := m]];
        KeyLinesStep(kinds, m, before, cur, k);
      } else {
        assert KeyAt(kinds, m) == None;
        assert after == before;
        KeyLinesSkip(kinds, m, before);
      }
    }
  }

  /** A line that assigns nothing leaves the key lines as they are. */
  lemma KeyLinesSkip(kinds: seq<LineKind>, m: nat, keyLines: map<string, map<string, nat>>)
    requires m < |kinds|
    requires KeyLinesAreLastAssignments(kinds, m, keyLines)
    requires KeyAt(kinds, m) == None
    ensures KeyLinesAreLastAssignments(kinds, m + 1, keyLines)
  {
  }

  /** Adding the assignment on line `m` to the key lines of the first `m`
      lines gives the key lines of the first `m + 1`. */
  lemma KeyLinesStep(kinds: seq<LineKind>, m: nat, before: map<string, map<string, nat>>, cur: string, k: string)
    requires m < |kinds|
    requires KeyLinesAreLastAssignments(kinds, m, before)
    requires KeyAt(kinds, m) == Some((cur, k))
    ensures KeyLinesAreLastAssignments(kinds, m + 1, before[cur := Table(before, cur)[k := m]])
  {
    var after := before[cur := Table(before, cur)[k := m]];
    forall s, k' | s in after && k' in after[s]
      ensures after[s][k'] < m + 1 && KeyAt(kinds, after[s][k']) == Some((s, k'))
      ensures forall j :: after[s][k'] < j < m + 1 ==> KeyAt(kinds, j) != Some((s, k'))
    {
      if (s, k') != (cur, k) {
        assert s in before && k' in before[s] && after[s][k'] == before[s][k'];
      }
    }
  }

  /** The values `load` records after `n` lines are those of the key lines. */
  lemma {:induction false} FoldData(kinds: seq<LineKind>, n: nat)
    requires n <= |kinds|
    ensures DataMatchesLines(kinds, Fold(kinds, n).keyLines, Fold(kinds, n).data)
  {
    if n > 0 {
      FoldData(kinds, n - 1);
    }
  }

  // ---- The index invariant and the lookup of `get` ----

  /** Every stored line number is a line of the store. */
  ghost predicate InBounds(n: nat, sections: map<string, nat>, keyLines: map<string, map<string, nat>>) {
    && (forall s :: s in sections ==> sections[s] < n)
    && (forall s, k :: s in keyLines && k in keyLines[s] ==> keyLines[s][k] < n)
  }

  /** No two (section, key) pairs share a line. */
  ghost predicate DistinctKeyLines(keyLines: map<string, map<string, nat>>) {
    forall s1, k1, s2, k2 ::
      (s1 in keyLines && k1 in keyLines[s1] && s2 in keyLines && k2 in keyLines[s2] &&
       keyLines[s1][k1] == keyLines[s2][k2]) ==> s1 == s2 && k1 == k2
  }

  /** The index agrees with the lines: every anchor is a header of its name,
      every key line assigns its key the stored value, and key lines are
      distinct. */
  ghost predicate Consistent(kinds: seq<LineKind>, sections: map<string, nat>,
                             keyLines: map<string, map<string, nat>>,
                             data: map<string, map<string, string>>)
  {
    && (forall s :: s in sections ==> sections[s] < |kinds| && kinds[sections[s]] == Header(s))
    && DataMatchesLines(kinds, keyLines, data)
    && DistinctKeyLines(keyLines)
  }

  /** A consistent index stays within the lines, and no two of its entries
      share a line number: anchors are headers, key lines are assignments. */
  lemma ConsistentEntriesDistinct(kinds: seq<LineKind>, sections: map<string, nat>,
                                  keyLines: map<string, map<string, nat>>,
                                  data: map<string, map<string, string>>)
    requires Consistent(kinds, sections, keyLines, data)
    ensures InBounds(|kinds|, sections, keyLines)
    ensures forall s1, s2 :: s1 in sections && s2 in sections && s1 != s2 ==> sections[s1] != sections[s2]
    ensures forall s1, s2, k :: s1 in sections && s2 in keyLines && k in keyLines[s2] ==>
              sections[s1] != keyLines[s2][k]
  {
  }

  /** After `load` the index is consistent with the lines read, and no key
      is indexed under the empty section that a header such as `[ ]` names. */
  lemma LoadConsistent(lines: seq<string>)
    ensures Consistent(Kinds(lines), Load(lines).sections, Load(lines).keyLines, Load(lines).data)
    ensures forall k :: "" in Load(lines).keyLines ==> k !in Load(lines).keyLines[""]
    ensures InBounds(|lines|, Load(lines).sections, Load(lines).keyLines)
  {
    var kinds, n := Kinds(lines), |lines|;
    FoldSections(kinds, n);
    FoldKeyLines(kinds, n);
    FoldData(kinds, n);
    var kl := Load(lines).keyLines;
    forall s1, k1, s2, k2 | s1 in kl && k1 in kl[s1] && s2 in kl && k2 in kl[s2] && kl[s1][k1] == kl[s2][k2]
      ensures s1 == s2 && k1 == k2
    {
      assert KeyAt(kinds, kl[s1][k1]) == Some((s1, k1));
    }
    ConsistentEntriesDistinct(kinds, Load(lines).sections, kl, Load(lines).data);
  }

  const KeyNotFound := "Error: key not found"
  const SectionNotFound := "Error: section not found"

  /** The lookup of `get` (initool.cpp:70-79): both names are case folded,
      and a missing section and a missing key give the same error. */
  function Lookup(data: map<string, map<string, string>>, section: string, key: string): Result<string> {
    var sec, k := ToLower(section), ToLower(key);
    if sec in data && k in data[sec] then Ok(data[sec][k]) else Err(KeyNotFound)
  }

  /** `get` depends on the names only through their case folding. */
  lemma LookupFoldsCase(data: map<string, map<string, string>>, section: string, key: string)
    ensures Lookup(data, section, key) == Lookup(data, ToLower(section), ToLower(key))
  {
    ToLowerIdempotent(section);
    ToLowerIdempotent(key);
  }

  /** `get` right after `load`: it succeeds exactly when some line assigns
      the folded key under the folded section, and then returns the value
      on the last such line; otherwise it fails with "key not found". */
  lemma LookupAfterLoad(lines: seq<string>, section: string, key: string)
    ensures var r := Lookup(Load(lines).data, section, key);
            var kinds, pair := Kinds(lines), (ToLower(section), ToLower(key));
            && (r.Ok? <==> exists j :: 0 <= j < |lines| && KeyAt(kinds, j) == Some(pair))
            && (r.Ok? ==> exists j :: 0 <= j < |lines| && KeyAt(kinds, j) == Some(pair)
                            && kinds[j] == Assignment(pair.1, r.value)
                            && forall j' :: j < j' < |lines| ==> KeyAt(kinds, j') != Some(pair))
            && (r.Err? ==> r.msg == KeyNotFound)
  {
    var kinds, n := Kinds(lines), |lines|;
    FoldKeyLines(kinds, n);
    FoldData(kinds, n);
  }
}
