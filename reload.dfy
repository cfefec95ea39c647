/** What a later run of initool reads back after `set` or `del` wrote the
    file. First `load` over the edited line store: the lines `set` writes are
    read back as the pair it was given, so the values after reloading are the
    old ones with that pair replaced. Then the text `write` writes, split
    again into lines as `getline` does (`Reread`): with no '\n' in any line
    or argument it gives back the edited store, so `SetThenLoad`, `SetTwice`
    and `DeleteThenLoad` hold of the file itself. The conditions under which
    this holds are the ones the text format needs. */
module Reload {
  import opened Wrappers
  import opened Utility
  import opened LineIO
  import opened Loader
  import opened Editing

  // ---- Strings that read back as written ----

  /** A value that `quote_if_needed` followed by `trim` and `unquote` gives
      back: one that gets quotes, or one with no space at either end that
      does not look quoted itself. */
  predicate ReadsBack(v: string) {
    NeedsQuotes(v) || (NoEdgeSpace(v) && !IsQuoted(v))
  }

  /** A key that a written `key = value` line gives back: no space at either
      end, no '=', and neither a comment nor something that opens a header. */
  predicate PlainKey(key: string) {
    NoEdgeSpace(key) && '=' !in key && !StartsWith(key, ';') && !StartsWith(key, '[')
  }

  /** `FirstNonSpace` finds no later than any non-space. */
  lemma {:induction false} FirstNonSpaceAtMost(s: string, i: nat)
    requires i < |s| && !IsSpace(s[i])
    ensures FirstNonSpace(s) <= i
  {
    if i > 0 && IsSpace(s[0]) {
      FirstNonSpaceAtMost(s[1..], i - 1);
    }
  }

  /** Past a leading character, the end of the last non-space of a text
      that has one is one place further on. */
  lemma {:induction false} EndNonSpaceCons(c: char, x: string)
    requires FirstNonSpace(x) < |x|
    ensures EndNonSpace([c] + x) == 1 + EndNonSpace(x)
  {
    if IsSpace(x[|x| - 1]) {
      var y := x[..|x| - 1];
      assert ([c] + x)[..|x|] == [c] + y;
      FirstNonSpaceAtMost(y, FirstNonSpace(x));
      EndNonSpaceCons(c, y);
    }
  }

  /** A space in front of a text does not change its trim. */
  lemma TrimDropsSpace(c: char, x: string)
    requires IsSpace(c)
    ensures Trim([c] + x) == Trim(x)
  {
    var y := [c] + x;
    assert y[1..] == x;
    assert FirstNonSpace(y) == 1 + FirstNonSpace(x);
    if FirstNonSpace(x) < |x| {
      EndNonSpaceCons(c, x);
      EndNonSpaceAfter(x, FirstNonSpace(x));
      assert y[1 + FirstNonSpace(x)..1 + EndNonSpace(x)] == x[FirstNonSpace(x)..EndNonSpace(x)];
    }
  }

  /** Spaces in front of a text do not change its trim. */
  lemma {:induction false} TrimDropsLeft(a: string, x: string)
    requires AllSpace(a)
    ensures Trim(a + x) == Trim(x)
  {
    if a != [] {
      var rest := a[1..] + x;
      assert a + x == [a[0]] + rest;
      TrimDropsSpace(a[0], rest);
      TrimDropsLeft(a[1..], x);
    } else {
      assert a + x == x;
    }
  }

  /** Everything in the trim of a text is in the text. */
  lemma TrimInside(x: string, c: char)
    requires c in Trim(x)
    ensures c in x
  {
    var i, j := TrimStart(x);
    var m :| 0 <= m < j - i && x[i..j][m] == c;
    assert x[i + m] == c;
  }

  /** A text whose first character is not a space keeps it under `trim`. */
  lemma TrimKeepsFirst(x: string)
    requires x != [] && !IsSpace(x[0])
    ensures Trim(x) != [] && Trim(x)[0] == x[0]
  {
    assert FirstNonSpace(x) == 0;
    EndNonSpaceAfter(x, 0);
  }

  /** `find` locates any first occurrence it is shown. */
  lemma FindAt(s: string, c: char, p: nat)
    requires p < |s| && s[p] == c && c !in s[..p]
    ensures Find(s, c) == Some(p)
  {
    assert s[p] == c;
  }

  /** The value half of a written line reads back as the value exactly when
      `ReadsBack` holds. */
  lemma ValueReadsBack(v: string)
    ensures Unquote(Trim(QuoteIfNeeded(v))) == v <==> ReadsBack(v)
  {
    var q := QuoteIfNeeded(v);
    if NeedsQuotes(v) {
      assert NoEdgeSpace(q);
      TrimOfPadded([], q, []);
      assert [] + q + [] == q;
      UnquoteQuoteIfNeeded(v);
    } else if NoEdgeSpace(v) {
      TrimOfPadded([], v, []);
      assert [] + v + [] == v;
      UnquoteQuoteIfNeeded(v);
    } else {
      TrimShape(v);
      assert |Unquote(Trim(v))| < |v|;
    }
  }

  // ---- Lines that `set` writes, as `load` reads them ----

  /** The trimmed text of the line `key = q`: the blank after the '=' goes
      when `q` is empty, the blank before it when `key` is. */
  function KeyLineCore(key: string, q: string): string {
    (if key == [] then "=" else key + " =") + (if q == [] then "" else " " + q)
  }

  lemma TrimKeyLine(key: string, q: string)
    requires NoEdgeSpace(key) && NoEdgeSpace(q)
    ensures Trim(key + " = " + q) == KeyLineCore(key, q)
  {
    var core := KeyLineCore(key, q);
    var pre := if key == [] then " " else "";
    var post := if q == [] then " " else "";
    assert key + " = " + q == pre + core + post;
    TrimOfPadded(pre, core, post);
  }

  /** The position of the '=' in `KeyLineCore`. */
  lemma FindInKeyLine(key: string, q: string)
    requires '=' !in key
    ensures Find(KeyLineCore(key, q), '=') == Some(if key == [] then 0 else |key| + 1)
  {
    var core := KeyLineCore(key, q);
    var pos := if key == [] then 0 else |key| + 1;
    assert core[..pos] == (if key == [] then "" else key + " ");
    FindAt(core, '=', pos);
  }

  /** The two halves of `KeyLineCore` around its '=', trimmed. */
  lemma KeyLineHalves(key: string, q: string)
    requires NoEdgeSpace(key) && NoEdgeSpace(q)
    ensures var pos := if key == [] then 0 else |key| + 1;
            var core := KeyLineCore(key, q);
            pos < |core| && Trim(core[..pos]) == key && Trim(core[pos + 1..]) == q
  {
    var pos := if key == [] then 0 else |key| + 1;
    var core := KeyLineCore(key, q);
    if key != [] {
      assert core[..pos] == [] + key + " ";
      TrimOfPadded([], key, " ");
    } else {
      assert core[..pos] == [];
    }
    if q != [] {
      assert core[pos + 1..] == " " + q + [];
      TrimOfPadded(" ", q, []);
    } else {
      assert core[pos + 1..] == [];
    }
  }

  /** `load` reads `KeyLineCore` as an assignment of the folded key. */
  lemma ClassifyKeyLineCore(key: string, q: string)
    requires PlainKey(key) && NoEdgeSpace(q)
    ensures ClassifyTrimmed(KeyLineCore(key, q)) == Assignment(ToLower(key), Unquote(q))
  {
    var core := KeyLineCore(key, q);
    FindInKeyLine(key, q);
    KeyLineHalves(key, q);
    assert core != [] && core[0] == (if key == [] then '=' else key[0]);
  }

  /** A key line written by `set` is read as an assignment of the folded key
      to the value, when the key is plain and the value reads back. */
  lemma ClassifyKeyLine(key: string, value: string)
    requires PlainKey(key) && ReadsBack(value)
    ensures Classify(key + " = " + QuoteIfNeeded(value)) == Assignment(ToLower(key), value)
  {
    var q := QuoteIfNeeded(value);
    assert NoEdgeSpace(q);
    TrimKeyLine(key, q);
    ClassifyKeyLineCore(key, q);
    UnquoteQuoteIfNeeded(value);
  }

  /** The header line `set` writes for a new section is read as a header of
      the folded name, when the name is non-empty and has no space at either
      end (`[]` is too short to be a header). */
  lemma ClassifyHeaderLine(section: string)
    requires section != [] && NoEdgeSpace(section)
    ensures Classify("[" + section + "]") == Header(ToLower(section))
  {
    var t := "[" + section + "]";
    assert NoEdgeSpace(t);
    TrimClean(t);
    assert t[1..|t| - 1] == section;
    TrimClean(section);
    HeaderTrimmed(t);
  }

  /** `trim` keeps a text with no space at either end. */
  lemma TrimClean(s: string)
    requires NoEdgeSpace(s)
    ensures Trim(s) == s
  {
    TrimOfPadded([], s, []);
    assert [] + s + [] == s;
  }

  /** A trimmed header line is read as the header it names. */
  lemma HeaderTrimmed(t: string)
    requires IsSectionHeader(t)
    ensures ClassifyTrimmed(t) == Header(ToLower(Trim(t[1..|t| - 1])))
  {
  }

  /** What `load` saw in a line it read as an assignment: a trimmed text
      that is not a comment and holds a '=', whose trimmed, folded left-hand
      side is the key. */
  lemma AssignmentFacts(line: string)
    requires Classify(line).Assignment?
    ensures var t := Trim(line);
            && t != [] && t[0] != ';' && Find(t, '=').Some?
            && Classify(line).key == ToLower(Trim(t[..Find(t, '=').value]))
  {
    var t := Trim(line);
    assert Classify(line) == ClassifyTrimmed(t);
  }

  /** A character that is not a space is in no all-space text. */
  lemma NotInSpaces(pre: string, c: char)
    requires AllSpace(pre) && !IsSpace(c)
    ensures c !in pre
  {
  }

  /** The trimmed left-hand side of an edge-clean text starts where the text
      does. */
  lemma LeftSideFirst(t: string, p: nat)
    requires t != [] && NoEdgeSpace(t) && p <= |t| && Trim(t[..p]) != []
    ensures Trim(t[..p])[0] == t[0]
  {
    if p > 0 {
      assert t[..p][0] == t[0];
      TrimKeepsFirst(t[..p]);
    }
  }

  /** The line `set` writes over a line whose first '=' is at `x`. */
  lemma RewrittenAt(line: string, value: string, x: nat)
    requires Find(line, '=') == Some(x)
    ensures RewrittenLine(line, value) == Trim(line[..x]) + " = " + QuoteIfNeeded(value)
  {
  }

  /** In a line whose trimmed text `t` holds a '=', the first '=' of the
      line is that of `t`, shifted by the leading spaces, and the trimmed
      text before it is the same. */
  lemma LeftSideOfLine(line: string) returns (x: nat)
    requires Trim(line) != [] && Find(Trim(line), '=').Some?
    ensures var t := Trim(line);
            Find(line, '=') == Some(x) && Trim(line[..x]) == Trim(t[..Find(t, '=').value])
  {
    var i, j := TrimStart(line);
    x := LeftSideOfSlice(line, i, j);
  }

  /** The same, for a slice `line[i..j]` after nothing but spaces. */
  lemma LeftSideOfSlice(line: string, i: nat, j: nat) returns (x: nat)
    requires i <= j <= |line| && AllSpace(line[..i]) && Find(line[i..j], '=').Some?
    ensures var t := line[i..j];
            Find(line, '=') == Some(x) && Trim(line[..x]) == Trim(t[..Find(t, '=').value])
  {
    var t := line[i..j];
    var p := Find(t, '=').value;
    x := i + p;
    assert line[x] == t[p];
    assert line[..x] == line[..i] + t[..p];
    NotInSpaces(line[..i], '=');
    FindAt(line, '=', x);
    TrimDropsLeft(line[..i], t[..p]);
  }

  /** Where the trimmed text of a line starts, after nothing but spaces. */
  lemma TrimStart(line: string) returns (i: nat, j: nat)
    requires Trim(line) != []
    ensures i <= j <= |line| && line[i..j] == Trim(line)
    ensures AllSpace(line[..i])
  {
    i := FirstNonSpace(line);
    EndNonSpaceAfter(line, i);
    FirstNonSpaceSkipsSpaces(line);
    j := EndNonSpace(line);
  }

  /** The trimmed text before the first '=' of a trimmed line that is not
      a comment holds no '=' and does not start with ';'. */
  lemma LeftSideFacts(t: string)
    requires t != [] && NoEdgeSpace(t) && t[0] != ';' && Find(t, '=').Some?
    ensures var lhs := Trim(t[..Find(t, '=').value]);
            '=' !in lhs && !StartsWith(lhs, ';')
  {
    var posT := Find(t, '=').value;
    var lhs := Trim(t[..posT]);
    if '=' in lhs {
      TrimInside(t[..posT], '=');
    }
    if lhs != [] {
      LeftSideFirst(t, posT);
    }
  }

  /** The line `set` writes over a line whose trimmed text `t` holds a '='
      and is not a comment: the trimmed part of `t` before its first '=',
      then " = " and the new value. */
  lemma RewrittenOfTrimmed(line: string, value: string)
    requires Trim(line) != [] && Trim(line)[0] != ';' && Find(Trim(line), '=').Some?
    ensures var t := Trim(line);
            var lhs := Trim(t[..Find(t, '=').value]);
            && RewrittenLine(line, value) == lhs + " = " + QuoteIfNeeded(value)
            && '=' !in lhs && !StartsWith(lhs, ';')
  {
    var x := LeftSideOfLine(line);
    RewrittenAt(line, value, x);
    LeftSideFacts(Trim(line));
  }

  /** The line `set` writes over an assignment is `lhs = q`, where `lhs` is
      that line's own key as written: plain, and folding to the key read. */
  lemma RewrittenLineSplit(line: string, value: string) returns (lhs: string)
    requires Classify(line).Assignment?
    ensures RewrittenLine(line, value) == lhs + " = " + QuoteIfNeeded(value)
    ensures ToLower(lhs) == Classify(line).key
    ensures NoEdgeSpace(lhs) && '=' !in lhs && !StartsWith(lhs, ';')
  {
    AssignmentFacts(line);
    RewrittenOfTrimmed(line, value);
    var t := Trim(line);
    lhs := Trim(t[..Find(t, '=').value]);
  }

  // ---- The index `load` builds over an edited store ----

  /** The pair `(s, k)` of a two-level map set to `v`, as `load` and `set`
      leave it. */
  function Put<V>(m: map<string, map<string, V>>, s: string, k: string, v: V): map<string, map<string, V>> {
    m[s := Table(m, s)[k := v]]
  }

  lemma PutCommutes<V>(m: map<string, map<string, V>>, s: string, k: string, v: V, s2: string, k2: string, v2: V)
    requires (s, k) != (s2, k2)
    ensures Put(Put(m, s, k, v), s2, k2, v2) == Put(Put(m, s2, k2, v2), s, k, v)
  {
    if s == s2 {
      assert Table(m, s)[k := v][k2 := v2] == Table(m, s)[k2 := v2][k := v];
    }
  }

  /** Setting a pair twice keeps the second value. */
  lemma PutTwice<V>(m: map<string, map<string, V>>, s: string, k: string, v0: V, v: V)
    ensures Put(Put(m, s, k, v0), s, k, v) == Put(m, s, k, v)
  {
    assert Table(m, s)[k := v0][k := v] == Table(m, s)[k := v];
  }

  /** `load` over two files that agree on their first `n` lines is in the
      same state after those lines. */
  lemma {:induction false} FoldPrefix(kinds: seq<LineKind>, other: seq<LineKind>, n: nat)
    requires n <= |kinds| && n <= |other| && kinds[..n] == other[..n]
    ensures Fold(kinds, n) == Fold(other, n)
  {
    if n > 0 {
      assert kinds[n - 1] == kinds[..n][n - 1] == other[..n][n - 1] == other[n - 1];
      assert kinds[..n - 1] == kinds[..n][..n - 1];
      assert other[..n - 1] == other[..n][..n - 1];
      FoldPrefix(kinds, other, n - 1);
    }
  }

  /** With no header after line `a`, the section in effect is still the one
      line `a` opened. */
  lemma {:induction false} SectionBeforeNoHeader(kinds: seq<LineKind>, a: nat, p: nat, s: string)
    requires a < p <= |kinds| && kinds[a] == Header(s)
    requires forall j :: a < j < p ==> !kinds[j].Header?
    ensures SectionBefore(kinds, p) == s
  {
    if p > a + 1 {
      SectionBeforeNoHeader(kinds, a, p - 1, s);
    }
  }

  /** Reading a file whose assignment on line `p`, the last one of the pair
      `(s, k)`, now carries `v`: the same index, with `v` as the value. */
  lemma {:induction false} FoldRewrite(kinds: seq<LineKind>, p: nat, s: string, k: string, v: string, n: nat)
    requires p < n <= |kinds| && kinds[p].Assignment? && kinds[p].key == k
    requires KeyAt(kinds, p) == Some((s, k))
    requires forall j :: p < j < |kinds| ==> KeyAt(kinds, j) != Some((s, k))
    ensures Fold(kinds[p := Assignment(k, v)], n) == Fold(kinds, n).(data := Put(Fold(kinds, n).data, s, k, v))
  {
    var edited := kinds[p := Assignment(k, v)];
    var m := n - 1;
    FoldCurrent(kinds, m);
    if m == p {
      assert edited[..p] == kinds[..p];
      FoldPrefix(edited, kinds, p);
      PutTwice(Fold(kinds, p).data, s, k, kinds[p].value, v);
    } else {
      FoldRewrite(kinds, p, s, k, v, m);
      assert edited[m] == kinds[m];
      var st := Fold(kinds, m);
      if kinds[m].Assignment? && st.current != [] {
        assert KeyAt(kinds, m) == Some((st.current, kinds[m].key));
        PutCommutes(st.data, s, k, v, st.current, kinds[m].key, kinds[m].value);
      }
    }
  }

  /** Reading a file with an assignment of the new pair `(s, k)` inserted at
      line `p`, inside section `s`: one line later, the same current section
      and the same values plus the new pair. */
  lemma {:induction false} FoldInsert(kinds: seq<LineKind>, p: nat, s: string, k: string, v: string, n: nat)
    requires p <= n <= |kinds| && SectionBefore(kinds, p) == s && s != []
    requires forall j :: 0 <= j < |kinds| ==> KeyAt(kinds, j) != Some((s, k))
    ensures var edited := InsertAt(kinds, p, Assignment(k, v));
            && Fold(edited, n + 1).current == Fold(kinds, n).current
            && Fold(edited, n + 1).data == Put(Fold(kinds, n).data, s, k, v)
  {
    var edited := InsertAt(kinds, p, Assignment(k, v));
    if n == p {
      assert edited[..p] == kinds[..p];
      FoldPrefix(edited, kinds, p);
      FoldCurrent(kinds, p);
      assert edited[p] == Assignment(k, v);
    } else {
      var m := n - 1;
      FoldInsert(kinds, p, s, k, v, m);
      assert edited[m + 1] == kinds[m];
      FoldCurrent(kinds, m);
      var st := Fold(kinds, m);
      if kinds[m].Assignment? && st.current != [] {
        assert KeyAt(kinds, m) == Some((st.current, kinds[m].key));
        PutCommutes(st.data, s, k, v, st.current, kinds[m].key, kinds[m].value);
      }
    }
  }

  /** Reading a file with a new section appended: (an optional skipped
      line,) a header of `s` and an assignment of `(s, k)` give the old
      values plus the new pair. */
  lemma FoldAppendSection(kinds: seq<LineKind>, extra: seq<LineKind>, s: string, k: string, v: string)
    requires s != []
    requires extra == [Header(s), Assignment(k, v)] || extra == [Skipped, Header(s), Assignment(k, v)]
    ensures Fold(kinds + extra, |kinds + extra|).data == Put(Fold(kinds, |kinds|).data, s, k, v)
  {
    var all, n := kinds + extra, |kinds|;
    assert all[..n] == kinds[..n];
    FoldPrefix(all, kinds, n);
    var e := |extra| - 2;
    if e == 1 {
      assert all[n] == Skipped;
    }
    assert Fold(all, n + e) == Fold(kinds, n);
    assert all[n + e] == Header(s) && all[n + e + 1] == Assignment(k, v);
  }

  /** Overwriting a line overwrites its kind. */
  lemma KindsUpdate(lines: seq<string>, j: nat, line: string)
    requires j < |lines|
    ensures Kinds(lines[j := line]) == Kinds(lines)[j := Classify(line)]
  {
    var edited, expected := lines[j := line], Kinds(lines)[j := Classify(line)];
    forall i | 0 <= i < |lines|
      ensures Kinds(edited)[i] == expected[i]
    {
      KindAt(edited, i);
      KindAt(lines, i);
    }
  }

  /** Inserting a line inserts its kind. */
  lemma KindsInsert(lines: seq<string>, p: nat, line: string)
    requires p <= |lines|
    ensures Kinds(InsertAt(lines, p, line)) == InsertAt(Kinds(lines), p, Classify(line))
  {
    var before, after := lines[..p], lines[p..];
    assert lines == before + after;
    KindsAppend(before, after);
    KindsAppend(before + [line], after);
    KindsAppend(before, [line]);
    KindAt([line], 0);
    var ks := Kinds(lines);
    assert ks[..p] == Kinds(before);
    assert ks[p..] == Kinds(after);
  }

  /** `LowerChar` yields '[' only for '['. */
  lemma KeyFoldStartsWithBracket(lhs: string, key: string)
    requires ToLower(lhs) == ToLower(key) && !StartsWith(key, '[')
    ensures !StartsWith(lhs, '[')
  {
    if lhs != [] {
      ToLowerChars(lhs);
      ToLowerChars(key);
    }
  }

  // ---- `set`, then `load` ----

  /** Indexed key (initool.cpp:99-104): reading back the rewritten line
      gives the same index, with the new value for the pair. */
  lemma SetExistingKeyThenLoad(lines: seq<string>, section: string, key: string, value: string)
    requires !StartsWith(key, '[') && ReadsBack(value)
    requires var st := Load(lines);
             ToLower(section) in st.sections && ToLower(key) in Table(st.keyLines, ToLower(section))
    ensures InBounds(|lines|, Load(lines).sections, Load(lines).keyLines)
    ensures var st := Load(lines);
            Load(SetLines(lines, st.sections, st.keyLines, section, key, value))
            == st.(data := Put(st.data, ToLower(section), ToLower(key), value))
  {
    LoadConsistent(lines);
    var st, kinds := Load(lines), Kinds(lines);
    var s, k := ToLower(section), ToLower(key);
    FoldKeyLines(kinds, |lines|);
    var lineNo := st.keyLines[s][k];
    assert KeyAt(kinds, lineNo) == Some((s, k));
    KindAt(lines, lineNo);
    var lhs := RewrittenLineSplit(lines[lineNo], value);
    KeyFoldStartsWithBracket(lhs, key);
    ClassifyKeyLine(lhs, value);
    var line := RewrittenLine(lines[lineNo], value);
    KindsUpdate(lines, lineNo, line);
    FoldRewrite(kinds, lineNo, s, k, value, |lines|);
  }

  /** A line `load` reads as a header is one the scan of `set` stops at. */
  lemma HeaderOpensBracket(line: string)
    requires Classify(line).Header?
    ensures OpensBracket(line)
  {
    assert Classify(line) == ClassifyTrimmed(Trim(line));
  }

  /** The index `load` builds stays within the lines. */
  lemma LoadInBounds(lines: seq<string>)
    ensures InBounds(|lines|, Load(lines).sections, Load(lines).keyLines)
  {
    LoadConsistent(lines);
  }

  /** The insertion point of `set` for a section read by `load` lies in that
      section: no header comes between its anchor and the point. */
  lemma InsertionInSection(lines: seq<string>, s: string)
    requires s in Load(lines).sections
    ensures Load(lines).sections[s] < |lines|
    ensures SectionBefore(Kinds(lines), InsertPosition(lines, Load(lines).sections[s])) == s
  {
    var kinds := Kinds(lines);
    FoldSections(kinds, |lines|);
    var anchor := Load(lines).sections[s];
    var p := InsertPosition(lines, anchor);
    forall j | anchor < j < p ensures !kinds[j].Header? {
      KindAt(lines, j);
      if kinds[j].Header? {
        HeaderOpensBracket(lines[j]);
      }
    }
    SectionBeforeNoHeader(kinds, anchor, p, s);
  }

  /** A pair `load` did not index is assigned on no line. */
  lemma AbsentPairNowhere(lines: seq<string>, s: string, k: string)
    requires k !in Table(Load(lines).keyLines, s)
    ensures forall j :: 0 <= j < |lines| ==> KeyAt(Kinds(lines), j) != Some((s, k))
  {
    FoldKeyLines(Kinds(lines), |lines|);
  }

  /** Known section, absent key (initool.cpp:105-121): the inserted line is
      read back inside the section, so the values are the old ones plus the
      new pair. The section must have a name: after a header such as `[ ]`
      the inserted line is not indexed. */
  lemma SetNewKeyThenLoad(lines: seq<string>, section: string, key: string, value: string)
    requires PlainKey(key) && ReadsBack(value)
    requires var st := Load(lines);
             && ToLower(section) in st.sections && ToLower(section) != []
             && ToLower(key) !in Table(st.keyLines, ToLower(section))
    ensures InBounds(|lines|, Load(lines).sections, Load(lines).keyLines)
    ensures var st := Load(lines);
            Load(SetLines(lines, st.sections, st.keyLines, section, key, value)).data
            == Put(st.data, ToLower(section), ToLower(key), value)
  {
    LoadInBounds(lines);
    var s, k := ToLower(section), ToLower(key);
    InsertionInSection(lines, s);
    AbsentPairNowhere(lines, s, k);
    var p := InsertPosition(lines, Load(lines).sections[s]);
    InsertedKeyLine(lines, p, key, value);
    FoldInsert(Kinds(lines), p, s, k, value, |lines|);
  }

  /** The key line `set` inserts is read as the new pair. */
  lemma InsertedKeyLine(lines: seq<string>, p: nat, key: string, value: string)
    requires p <= |lines| && PlainKey(key) && ReadsBack(value)
    ensures Load(InsertAt(lines, p, NewKeyLine(key, value)))
            == Fold(InsertAt(Kinds(lines), p, Assignment(ToLower(key), value)), |lines| + 1)
  {
    var line := NewKeyLine(key, value);
    KeyLineKind(key, value);
    KindsInsert(lines, p, line);
    var edited := InsertAt(lines, p, line);
    assert |edited| == |lines| + 1;
    assert Kinds(edited) == InsertAt(Kinds(lines), p, Assignment(ToLower(key), value));
  }

  /** The kind of the key line `set` writes. */
  lemma KeyLineKind(key: string, value: string)
    requires PlainKey(key) && ReadsBack(value)
    ensures Classify(NewKeyLine(key, value)) == Assignment(ToLower(key), value)
  {
    ClassifyKeyLine(key, value);
  }

  /** The kinds of two lines. */
  lemma KindsOfTwo(a: string, b: string)
    ensures Kinds([a, b]) == [Classify(a), Classify(b)]
  {
    KindAt([a, b], 0);
    KindAt([a, b], 1);
  }

  /** The kinds of the lines `set` appends for a new section. */
  lemma AppendedKinds(separator: seq<string>, section: string, key: string, value: string)
    requires separator == [] || separator == [""]
    requires section != [] && NoEdgeSpace(section) && PlainKey(key) && ReadsBack(value)
    ensures Kinds(separator + ["[" + section + "]", NewKeyLine(key, value)])
            == (if separator == [] then [] else [Skipped]) + [Header(ToLower(section)), Assignment(ToLower(key), value)]
  {
    var header, keyLine := "[" + section + "]", NewKeyLine(key, value);
    ClassifyHeaderLine(section);
    ClassifyKeyLine(key, value);
    KindsOfTwo(header, keyLine);
    if separator == [] {
      assert separator + [header, keyLine] == [header, keyLine];
    } else {
      assert separator + [header, keyLine] == [""] + [header, keyLine];
      assert Classify("") == Skipped by { assert Trim("") == []; }
      KindAt([""], 0);
      KindsAppend([""], [header, keyLine]);
    }
  }

  /** Unknown section (initool.cpp:87-93): the appended header and key line
      are read back as the new pair, so the values are the old ones plus
      that pair. The name must be a header `load` accepts and folds back to
      itself: non-empty, with no space at either end. */
  lemma SetNewSectionThenLoad(lines: seq<string>, section: string, key: string, value: string)
    requires section != [] && NoEdgeSpace(section) && PlainKey(key) && ReadsBack(value)
    requires ToLower(section) !in Load(lines).sections
    ensures InBounds(|lines|, Load(lines).sections, Load(lines).keyLines)
    ensures var st := Load(lines);
            Load(SetLines(lines, st.sections, st.keyLines, section, key, value)).data
            == Put(st.data, ToLower(section), ToLower(key), value)
  {
    LoadInBounds(lines);
    var separator := if |lines| > 0 && Trim(lines[|lines| - 1]) != [] then [""] else [];
    var added := separator + ["[" + section + "]", NewKeyLine(key, value)];
    assert AppendSection(lines, section, key, value) == lines + added;
    KindsAppend(lines, added);
    AppendedKinds(separator, section, key, value);
    FoldAppendSection(Kinds(lines), Kinds(added), ToLower(section), ToLower(key), value);
  }

  /** `set` followed by `load` of the edited line store: whatever branch
      `set` takes, the values are the old ones with the pair set. */
  lemma SetThenLoadLines(lines: seq<string>, section: string, key: string, value: string)
    requires section != [] && NoEdgeSpace(section) && PlainKey(key) && ReadsBack(value)
    ensures InBounds(|lines|, Load(lines).sections, Load(lines).keyLines)
    ensures Load(SetLines(lines, Load(lines).sections, Load(lines).keyLines, section, key, value)).data
            == Put(Load(lines).data, ToLower(section), ToLower(key), value)
  {
    LoadInBounds(lines);
    var st := Load(lines);
    var sec, k := ToLower(section), ToLower(key);
    if sec !in st.sections {
      SetNewSectionThenLoad(lines, section, key, value);
    } else if k in Table(st.keyLines, sec) {
      SetExistingKeyThenLoad(lines, section, key, value);
    } else {
      assert |sec| == |section|;
      ToLowerNonEmpty(section);
      SetNewKeyThenLoad(lines, section, key, value);
    }
  }

  /** Folding keeps a name non-empty. */
  lemma ToLowerNonEmpty(section: string)
    requires section != []
    ensures ToLower(section) != []
  {
  }

  /** The section in effect, when it has a name, was opened by a header. */
  lemma {:induction false} SectionBeforeHasHeader(kinds: seq<LineKind>, n: nat)
    requires n <= |kinds| && SectionBefore(kinds, n) != []
    ensures exists j :: 0 <= j < n && kinds[j] == Header(SectionBefore(kinds, n))
  {
    if !kinds[n - 1].Header? {
      SectionBeforeHasHeader(kinds, n - 1);
    }
  }

  /** A pair `load` gave a value has a key line, and its section an anchor. */
  lemma ValuedPairIndexed(lines: seq<string>, s: string, k: string)
    requires k in Table(Load(lines).data, s)
    ensures s in Load(lines).sections && k in Table(Load(lines).keyLines, s)
  {
    var kinds, st := Kinds(lines), Load(lines);
    FoldData(kinds, |lines|);
    FoldKeyLines(kinds, |lines|);
    FoldSections(kinds, |lines|);
    assert k in st.keyLines[s];
    var j := st.keyLines[s][k];
    assert KeyAt(kinds, j) == Some((s, k));
    SectionBeforeHasHeader(kinds, j);
  }

  /** Every pair some line assigns belongs to a section `load` anchored. */
  lemma KeyedSectionsKnown(lines: seq<string>)
    ensures forall j :: 0 <= j < |lines| && KeyAt(Kinds(lines), j).Some? ==>
              KeyAt(Kinds(lines), j).value.0 in Load(lines).sections
  {
    var kinds := Kinds(lines);
    FoldSections(kinds, |lines|);
    forall j | 0 <= j < |lines| && KeyAt(kinds, j).Some?
      ensures KeyAt(kinds, j).value.0 in Load(lines).sections
    {
      SectionBeforeHasHeader(kinds, j);
    }
  }

  /** Lines appended after the first ones leave what those assign alone. */
  lemma KeyAtPrefix(kinds: seq<LineKind>, more: seq<LineKind>)
    ensures forall j :: 0 <= j < |kinds| ==> KeyAt(kinds + more, j) == KeyAt(kinds, j)
  {
    forall j | 0 <= j < |kinds| ensures KeyAt(kinds + more, j) == KeyAt(kinds, j) {
      assert (kinds + more)[..j] == kinds[..j];
      FoldPrefix(kinds + more, kinds, j);
      FoldCurrent(kinds + more, j);
      FoldCurrent(kinds, j);
    }
  }

  /** An assignment of a pair assigned nowhere, inserted inside its section,
      is then the only line assigning that pair. */
  lemma InsertedOnlyAssignment(kinds: seq<LineKind>, p: nat, s: string, k: string, v: string)
    requires p <= |kinds| && SectionBefore(kinds, p) == s && s != []
    requires forall j :: 0 <= j < |kinds| ==> KeyAt(kinds, j) != Some((s, k))
    ensures var edited := InsertAt(kinds, p, Assignment(k, v));
            forall j :: 0 <= j < |edited| && j != p ==> KeyAt(edited, j) != Some((s, k))
  {
    var edited := InsertAt(kinds, p, Assignment(k, v));
    forall j | 0 <= j < |edited| && j != p ensures KeyAt(edited, j) != Some((s, k)) {
      FoldCurrent(edited, j);
      if j < p {
        assert edited[..j] == kinds[..j];
        FoldPrefix(edited, kinds, j);
        FoldCurrent(kinds, j);
        assert KeyAt(edited, j) == KeyAt(kinds, j);
      } else {
        FoldInsert(kinds, p, s, k, v, j - 1);
        FoldCurrent(kinds, j - 1);
        assert edited[j] == kinds[j - 1];
        assert KeyAt(edited, j) == KeyAt(kinds, j - 1);
      }
    }
  }

  /** `set` over a line it wrote itself writes that line again. */
  lemma RewriteWritten(lhs: string, q: string, value: string)
    requires NoEdgeSpace(lhs) && '=' !in lhs
    ensures RewrittenLine(lhs + " = " + q, value) == lhs + " = " + QuoteIfNeeded(value)
  {
    var line := lhs + " = " + q;
    var pos := |lhs| + 1;
    assert line[pos] == '=';
    assert line[..pos] == [] + lhs + " ";
    FindAt(line, '=', pos);
    RewrittenAt(line, value, pos);
    TrimOfPadded([], lhs, " ");
  }

  /** After `set`, `load` indexes the pair and anchors its section. */
  lemma PairIndexedAfterSet(lines: seq<string>, section: string, key: string, value: string)
    requires section != [] && NoEdgeSpace(section) && PlainKey(key) && ReadsBack(value)
    ensures InBounds(|lines|, Load(lines).sections, Load(lines).keyLines)
    ensures var once := SetLines(lines, Load(lines).sections, Load(lines).keyLines, section, key, value);
            var s, k := ToLower(section), ToLower(key);
            && s in Load(once).sections && s in Load(once).keyLines && k in Load(once).keyLines[s]
            && Load(once).keyLines[s][k] < |once|
            && KeyAt(Kinds(once), Load(once).keyLines[s][k]) == Some((s, k))
  {
    SetThenLoadLines(lines, section, key, value);
    var once := SetLines(lines, Load(lines).sections, Load(lines).keyLines, section, key, value);
    var s, k := ToLower(section), ToLower(key);
    assert k in Table(Load(once).data, s);
    ValuedPairIndexed(once, s, k);
    LastKeyLine(once, s, k);
  }

  /** Unknown section: the key line `load` records is the last line, the
      one `set` appended. */
  lemma WrittenNewSection(lines: seq<string>, section: string, key: string, value: string)
    requires section != [] && NoEdgeSpace(section) && PlainKey(key) && ReadsBack(value)
    requires ToLower(section) !in Load(lines).sections
    ensures InBounds(|lines|, Load(lines).sections, Load(lines).keyLines)
    ensures var once := SetLines(lines, Load(lines).sections, Load(lines).keyLines, section, key, value);
            var s, k := ToLower(section), ToLower(key);
            && s in Load(once).keyLines && k in Load(once).keyLines[s]
            && Load(once).keyLines[s][k] == |once| - 1
            && once[|once| - 1] == key + " = " + QuoteIfNeeded(value)
  {
    PairIndexedAfterSet(lines, section, key, value);
    var s, k := ToLower(section), ToLower(key);
    var once := SetLines(lines, Load(lines).sections, Load(lines).keyLines, section, key, value);
    assert once == AppendSection(lines, section, key, value);
    var extra := AppendedSectionKinds(lines, section, key, value);
    UnknownSectionNowhere(lines, s, k);
    AppendedOnlyAssignment(Kinds(lines), extra, s, k, value);
  }

  /** The kinds of the store after appending a section: the old kinds, and
      (a skipped line,) the header and the assignment. */
  lemma AppendedSectionKinds(lines: seq<string>, section: string, key: string, value: string)
    returns (extra: seq<LineKind>)
    requires section != [] && NoEdgeSpace(section) && PlainKey(key) && ReadsBack(value)
    ensures var s, k := ToLower(section), ToLower(key);
            extra == [Header(s), Assignment(k, value)] || extra == [Skipped, Header(s), Assignment(k, value)]
    ensures Kinds(AppendSection(lines, section, key, value)) == Kinds(lines) + extra
    ensures var after := AppendSection(lines, section, key, value);
            after[|after| - 1] == key + " = " + QuoteIfNeeded(value)
  {
    var separator := if |lines| > 0 && Trim(lines[|lines| - 1]) != [] then [""] else [];
    var added := separator + ["[" + section + "]", NewKeyLine(key, value)];
    assert AppendSection(lines, section, key, value) == lines + added;
    assert (lines + added)[|lines + added| - 1] == NewKeyLine(key, value);
    KindsAppend(lines, added);
    AppendedKinds(separator, section, key, value);
    extra := Kinds(added);
  }

  /** No line assigns a pair of a section `load` did not anchor. */
  lemma UnknownSectionNowhere(lines: seq<string>, s: string, k: string)
    requires s !in Load(lines).sections
    ensures forall j :: 0 <= j < |lines| ==> KeyAt(Kinds(lines), j) != Some((s, k))
  {
    KeyedSectionsKnown(lines);
  }

  /** After appending a header of `s` and an assignment of `(s, k)` to lines
      that assign `(s, k)` nowhere, the last line is the only one assigning it. */
  lemma AppendedOnlyAssignment(kinds: seq<LineKind>, extra: seq<LineKind>, s: string, k: string, v: string)
    requires extra == [Header(s), Assignment(k, v)] || extra == [Skipped, Header(s), Assignment(k, v)]
    requires forall j :: 0 <= j < |kinds| ==> KeyAt(kinds, j) != Some((s, k))
    ensures forall j :: 0 <= j < |kinds + extra| - 1 ==> KeyAt(kinds + extra, j) != Some((s, k))
  {
    KeyAtPrefix(kinds, extra);
    var all := kinds + extra;
    forall j | |kinds| <= j < |all| - 1 ensures KeyAt(all, j) != Some((s, k)) {
      assert all[j] == extra[j - |kinds|];
    }
  }

  /** Indexed key: the key line `load` records is the rewritten line, whose
      left-hand side is plain. */
  lemma WrittenExistingKey(lines: seq<string>, section: string, key: string, value: string) returns (lhs: string)
    requires !StartsWith(key, '[') && ReadsBack(value)
    requires var st := Load(lines);
             ToLower(section) in st.sections && ToLower(key) in Table(st.keyLines, ToLower(section))
    ensures InBounds(|lines|, Load(lines).sections, Load(lines).keyLines)
    ensures var once := SetLines(lines, Load(lines).sections, Load(lines).keyLines, section, key, value);
            var s, k := ToLower(section), ToLower(key);
            && Load(once).keyLines == Load(lines).keyLines
            && Load(lines).keyLines[s][k] < |once|
            && once[Load(lines).keyLines[s][k]] == lhs + " = " + QuoteIfNeeded(value)
            && NoEdgeSpace(lhs) && '=' !in lhs
  {
    SetExistingKeyThenLoad(lines, section, key, value);
    var st := Load(lines);
    var s, k := ToLower(section), ToLower(key);
    SetExistingKey(lines, st.sections, st.keyLines, section, key, value);
    var lineNo := st.keyLines[s][k];
    LastKeyLine(lines, s, k);
    KindAt(lines, lineNo);
    lhs := RewrittenLineSplit(lines[lineNo], value);
  }

  /** Known section, absent key: the key line `load` records is the line
      `set` inserted. */
  lemma WrittenNewKey(lines: seq<string>, section: string, key: string, value: string)
    requires section != [] && NoEdgeSpace(section) && PlainKey(key) && ReadsBack(value)
    requires var st := Load(lines);
             ToLower(section) in st.sections && ToLower(key) !in Table(st.keyLines, ToLower(section))
    ensures InBounds(|lines|, Load(lines).sections, Load(lines).keyLines)
    ensures var once := SetLines(lines, Load(lines).sections, Load(lines).keyLines, section, key, value);
            var s, k := ToLower(section), ToLower(key);
            && s in Load(once).keyLines && k in Load(once).keyLines[s]
            && Load(once).keyLines[s][k] < |once|
            && once[Load(once).keyLines[s][k]] == key + " = " + QuoteIfNeeded(value)
  {
    PairIndexedAfterSet(lines, section, key, value);
    var st := Load(lines);
    var s, k := ToLower(section), ToLower(key);
    ToLowerNonEmpty(section);
    InsertionInSection(lines, s);
    AbsentPairNowhere(lines, s, k);
    var p := InsertPosition(lines, st.sections[s]);
    var once := InsertAt(lines, p, NewKeyLine(key, value));
    assert SetLines(lines, st.sections, st.keyLines, section, key, value) == once;
    KeyLineKind(key, value);
    KindsInsert(lines, p, NewKeyLine(key, value));
    InsertedOnlyAssignment(Kinds(lines), p, s, k, value);
    assert once[p] == NewKeyLine(key, value);
  }

  /** `set` over a store whose key line for the pair is one it wrote itself
      changes nothing. */
  lemma RewriteKeepsWritten(lines: seq<string>, sections: map<string, nat>, keyLines: map<string, map<string, nat>>,
                            section: string, key: string, value: string, lhs: string)
    requires InBounds(|lines|, sections, keyLines)
    requires ToLower(section) in sections && ToLower(key) in Table(keyLines, ToLower(section))
    requires lines[keyLines[ToLower(section)][ToLower(key)]] == lhs + " = " + QuoteIfNeeded(value)
    requires NoEdgeSpace(lhs) && '=' !in lhs
    ensures SetLines(lines, sections, keyLines, section, key, value) == lines
  {
    SetExistingKey(lines, sections, keyLines, section, key, value);
    RewriteWritten(lhs, QuoteIfNeeded(value), value);
    var r := SetLines(lines, sections, keyLines, section, key, value);
    assert forall i :: 0 <= i < |lines| ==> r[i] == lines[i];
  }

  /** Running `set` again with the same arguments, over what `load` reads
      from the edited store, changes no line. */
  lemma SetAgainChangesNothing(lines: seq<string>, section: string, key: string, value: string)
    requires section != [] && NoEdgeSpace(section) && PlainKey(key) && ReadsBack(value)
    ensures InBounds(|lines|, Load(lines).sections, Load(lines).keyLines)
    ensures var once := SetLines(lines, Load(lines).sections, Load(lines).keyLines, section, key, value);
            InBounds(|once|, Load(once).sections, Load(once).keyLines)
    ensures var once := SetLines(lines, Load(lines).sections, Load(lines).keyLines, section, key, value);
            SetLines(once, Load(once).sections, Load(once).keyLines, section, key, value) == once
  {
    PairIndexedAfterSet(lines, section, key, value);
    var st := Load(lines);
    var once := SetLines(lines, st.sections, st.keyLines, section, key, value);
    LoadInBounds(once);
    var lhs := key;
    if ToLower(section) !in st.sections {
      WrittenNewSection(lines, section, key, value);
    } else if ToLower(key) in Table(st.keyLines, ToLower(section)) {
      lhs := WrittenExistingKey(lines, section, key, value);
    } else {
      WrittenNewKey(lines, section, key, value);
    }
    RewriteKeepsWritten(once, Load(once).sections, Load(once).keyLines, section, key, value, lhs);
  }

  // ---- The file `write` wrote, read again ----

  /** The lines the next run of initool reads from the file `write` wrote:
      the text split again at each '\n', as `getline` does. */
  function Reread(lines: seq<string>): seq<string> {
    SplitLines(Serialize(lines))
  }

  /** `trim` adds no '\n'. */
  lemma TrimNoNewline(x: string)
    requires '\n' !in x
    ensures '\n' !in Trim(x)
  {
    if Trim(x) != [] {
      var i, j := TrimStart(x);
      forall m | 0 <= m < |Trim(x)| ensures Trim(x)[m] != '\n' {
        assert Trim(x)[m] == x[i + m];
      }
    }
  }

  /** A rewritten key line holds a '\n' only if the old line or the value did. */
  lemma RewrittenNoNewline(line: string, value: string)
    requires '\n' !in line && '\n' !in value
    ensures '\n' !in RewrittenLine(line, value)
  {
    var lhs := match Find(line, '=') case Some(pos) => line[..pos] case None => line;
    forall m | 0 <= m < |lhs| ensures lhs[m] != '\n' {
      assert lhs[m] == line[m];
    }
    TrimNoNewline(lhs);
  }

  /** Joining two stores free of '\n' gives one free of '\n'. */
  lemma ConcatNoNewline(a: seq<string>, b: seq<string>)
    requires NoNewline(a) && NoNewline(b)
    ensures NoNewline(a + b)
  {
    forall i | 0 <= i < |a + b| ensures '\n' !in (a + b)[i] {
      if i < |a| {
        assert (a + b)[i] == a[i];
      } else {
        assert (a + b)[i] == b[i - |a|];
      }
    }
  }

  /** `set` writes no line holding a '\n' when neither the old lines nor its
      arguments hold one. */
  lemma SetLinesNoNewline(lines: seq<string>, sections: map<string, nat>, keyLines: map<string, map<string, nat>>,
                          section: string, key: string, value: string)
    requires InBounds(|lines|, sections, keyLines) && NoNewline(lines)
    requires '\n' !in section && '\n' !in key && '\n' !in value
    ensures NoNewline(SetLines(lines, sections, keyLines, section, key, value))
  {
    var sec, k := ToLower(section), ToLower(key);
    var keyLine := NewKeyLine(key, value);
    assert '\n' !in QuoteIfNeeded(value);
    assert '\n' !in keyLine;
    if sec !in sections {
      var separator := if |lines| > 0 && Trim(lines[|lines| - 1]) != [] then [""] else [];
      ConcatNoNewline(lines, separator);
      ConcatNoNewline(lines + separator, ["[" + section + "]", keyLine]);
    } else if k in Table(keyLines, sec) {
      var j := Table(keyLines, sec)[k];
      RewrittenNoNewline(lines[j], value);
    } else {
      var p := InsertPosition(lines, sections[sec]);
      assert lines == lines[..p] + lines[p..];
      ConcatNoNewline(lines[..p], [keyLine]);
      ConcatNoNewline(lines[..p] + [keyLine], lines[p..]);
    }
  }

  /** `set`, then the next run of initool: the file `write` wrote is read
      back line for line, and `load` gives the old values with the pair set
      to the new value. Neither the lines read nor the arguments hold a
      '\n' (lines `getline` read never do). */
  lemma SetThenLoad(lines: seq<string>, section: string, key: string, value: string)
    requires NoNewline(lines) && '\n' !in section && '\n' !in key && '\n' !in value
    requires section != [] && NoEdgeSpace(section) && PlainKey(key) && ReadsBack(value)
    ensures InBounds(|lines|, Load(lines).sections, Load(lines).keyLines)
    ensures var once := SetLines(lines, Load(lines).sections, Load(lines).keyLines, section, key, value);
            && Reread(once) == once
            && Load(Reread(once)).data == Put(Load(lines).data, ToLower(section), ToLower(key), value)
  {
    SetThenLoadLines(lines, section, key, value);
    var once := SetLines(lines, Load(lines).sections, Load(lines).keyLines, section, key, value);
    SetLinesNoNewline(lines, Load(lines).sections, Load(lines).keyLines, section, key, value);
    SplitSerialize(once);
  }

  /** `get` in the next run returns the value just set, and every other
      pair keeps the answer it had. */
  lemma SetThenGet(lines: seq<string>, section: string, key: string, value: string)
    requires NoNewline(lines) && '\n' !in section && '\n' !in key && '\n' !in value
    requires section != [] && NoEdgeSpace(section) && PlainKey(key) && ReadsBack(value)
    ensures InBounds(|lines|, Load(lines).sections, Load(lines).keyLines)
    ensures var after := Load(Reread(SetLines(lines, Load(lines).sections, Load(lines).keyLines, section, key, value))).data;
            && Lookup(after, section, key) == Ok(value)
            && forall s, k :: (ToLower(s), ToLower(k)) != (ToLower(section), ToLower(key)) ==>
                 Lookup(after, s, k) == Lookup(Load(lines).data, s, k)
  {
    SetThenLoad(lines, section, key, value);
  }

  /** Running `set` a second time with the same arguments, on the file the
      first run wrote, writes the same lines again. */
  lemma SetTwice(lines: seq<string>, section: string, key: string, value: string)
    requires NoNewline(lines) && '\n' !in section && '\n' !in key && '\n' !in value
    requires section != [] && NoEdgeSpace(section) && PlainKey(key) && ReadsBack(value)
    ensures InBounds(|lines|, Load(lines).sections, Load(lines).keyLines)
    ensures var read := Reread(SetLines(lines, Load(lines).sections, Load(lines).keyLines, section, key, value));
            InBounds(|read|, Load(read).sections, Load(read).keyLines)
    ensures var read := Reread(SetLines(lines, Load(lines).sections, Load(lines).keyLines, section, key, value));
            SetLines(read, Load(read).sections, Load(read).keyLines, section, key, value) == read
  {
    SetThenLoad(lines, section, key, value);
    SetAgainChangesNothing(lines, section, key, value);
  }

  // ---- `del`, then `load` ----

  /** The value a table gives the folded pair `(s, k)`, if any. */
  function ValueAt(d: map<string, map<string, string>>, s: string, k: string): Option<string> {
    if k in Table(d, s) then Some(Table(d, s)[k]) else None
  }

  /** `get` succeeds exactly where the folded pair has a value, and returns it. */
  lemma LookupValueAt(d: map<string, map<string, string>>, section: string, key: string)
    ensures Lookup(d, section, key) == match ValueAt(d, ToLower(section), ToLower(key))
                                       case Some(v) => Ok(v)
                                       case None => Err(KeyNotFound)
  {
  }

  /** Two states with the same current section take a line alike: they
      keep the same current section, and a pair they agree on stays agreed. */
  lemma StepAgrees(a: LoadState, b: LoadState, kind: LineKind, i: nat, j: nat, s: string, k: string)
    requires a.current == b.current
    ensures Step(a, kind, i).current == Step(b, kind, j).current
    ensures ValueAt(a.data, s, k) == ValueAt(b.data, s, k) ==>
              ValueAt(Step(a, kind, i).data, s, k) == ValueAt(Step(b, kind, j).data, s, k)
  {
  }

  /** A line that does not assign `(s, k)` leaves its value alone. */
  lemma StepMisses(a: LoadState, kind: LineKind, i: nat, s: string, k: string)
    requires !(kind.Assignment? && a.current != [] && (a.current, kind.key) == (s, k))
    ensures ValueAt(Step(a, kind, i).data, s, k) == ValueAt(a.data, s, k)
  {
  }

  /** Reading a file with the last assignment of `(s, k)`, on line `p`,
      erased: the current section is the same, the pair has the value the
      lines before `p` gave it, and every other pair has its usual value. */
  lemma {:induction false} FoldRemove(kinds: seq<LineKind>, p: nat, s: string, k: string,
                                      n: nat, s2: string, k2: string)
    requires p < n <= |kinds| && KeyAt(kinds, p) == Some((s, k))
    requires forall j :: p < j < |kinds| ==> KeyAt(kinds, j) != Some((s, k))
    ensures Fold(RemoveAt(kinds, p), n - 1).current == Fold(kinds, n).current
    ensures ValueAt(Fold(RemoveAt(kinds, p), n - 1).data, s2, k2)
            == if (s2, k2) == (s, k) then ValueAt(Fold(kinds, p).data, s, k)
               else ValueAt(Fold(kinds, n).data, s2, k2)
  {
    var erased := RemoveAt(kinds, p);
    var m := n - 1;
    if m == p {
      assert erased[..p] == kinds[..p];
      FoldPrefix(erased, kinds, p);
      FoldCurrent(kinds, p);
    } else {
      FoldRemove(kinds, p, s, k, m, s2, k2);
      assert erased[m - 1] == kinds[m];
      FoldCurrent(kinds, m);
      var a, b := Fold(erased, m - 1), Fold(kinds, m);
      StepAgrees(a, b, kinds[m], m - 1, m, s2, k2);
      if (s2, k2) == (s, k) {
        assert KeyAt(kinds, m) != Some((s, k));
        StepMisses(a, kinds[m], m - 1, s, k);
      }
    }
  }

  /** The kinds of the lines before `p` are the first `p` kinds. */
  lemma KindsPrefix(lines: seq<string>, p: nat)
    requires p <= |lines|
    ensures Load(lines[..p]) == Fold(Kinds(lines), p)
  {
    assert lines == lines[..p] + lines[p..];
    KindsAppend(lines[..p], lines[p..]);
    assert Kinds(lines)[..p] == Kinds(lines[..p]);
    FoldPrefix(Kinds(lines[..p]), Kinds(lines), p);
  }

  /** The key line `load` records for a pair is the last line assigning it. */
  lemma LastKeyLine(lines: seq<string>, s: string, k: string)
    requires s in Load(lines).keyLines && k in Load(lines).keyLines[s]
    ensures var p := Load(lines).keyLines[s][k];
            && p < |lines| && KeyAt(Kinds(lines), p) == Some((s, k))
            && forall j :: p < j < |lines| ==> KeyAt(Kinds(lines), j) != Some((s, k))
  {
    FoldKeyLines(Kinds(lines), |lines|);
  }

  /** One folded pair after erasing the key line of `(s, k)` and reading the
      file again. */
  lemma DeletePairThenLoad(lines: seq<string>, s: string, k: string, s2: string, k2: string)
    requires s in Load(lines).keyLines && k in Load(lines).keyLines[s]
    ensures Load(lines).keyLines[s][k] < |lines|
    ensures var p := Load(lines).keyLines[s][k];
            ValueAt(Load(RemoveAt(lines, p)).data, s2, k2)
            == if (s2, k2) == (s, k) then ValueAt(Load(lines[..p]).data, s, k)
               else ValueAt(Load(lines).data, s2, k2)
  {
    LastKeyLine(lines, s, k);
    var p, kinds := Load(lines).keyLines[s][k], Kinds(lines);
    KindsRemoveAt(lines, p);
    KindsPrefix(lines, p);
    FoldRemove(kinds, p, s, k, |lines|, s2, k2);
    assert |RemoveAt(lines, p)| == |lines| - 1;
    assert Load(RemoveAt(lines, p)) == Fold(RemoveAt(kinds, p), |lines| - 1);
  }

  /** Erasing a line keeps every line free of '\n', so the file `write`
      writes is read back as the erased store. */
  lemma RemoveAtNoNewline(lines: seq<string>, p: nat)
    requires p < |lines| && NoNewline(lines)
    ensures Reread(RemoveAt(lines, p)) == RemoveAt(lines, p)
  {
    var after := RemoveAt(lines, p);
    forall i | 0 <= i < |after| ensures '\n' !in after[i] {
      if i < p {
        assert after[i] == lines[i];
      } else {
        assert after[i] == lines[i + 1];
      }
    }
    SplitSerialize(after);
  }

  /** `del` followed by `load`, over any store `load` produced: every other
      pair keeps its answer, and the deleted pair is read back as the lines
      before its key line leave it. So an earlier line assigning the same
      pair makes it reappear, with that line's value. When no line holds a
      '\n', the file `write` wrote is read back as exactly that store. */
  lemma DeleteThenLoad(lines: seq<string>, section: string, key: string)
    requires ToLower(section) in Load(lines).keyLines
    requires ToLower(key) in Load(lines).keyLines[ToLower(section)]
    ensures Load(lines).keyLines[ToLower(section)][ToLower(key)] < |lines|
    ensures var p := Load(lines).keyLines[ToLower(section)][ToLower(key)];
            var after := Load(RemoveAt(lines, p)).data;
            && Lookup(after, section, key) == Lookup(Load(lines[..p]).data, section, key)
            && forall s2, k2 :: (ToLower(s2), ToLower(k2)) != (ToLower(section), ToLower(key)) ==>
                 Lookup(after, s2, k2) == Lookup(Load(lines).data, s2, k2)
    ensures var p := Load(lines).keyLines[ToLower(section)][ToLower(key)];
            NoNewline(lines) ==> Reread(RemoveAt(lines, p)) == RemoveAt(lines, p)
  {
    var s, k := ToLower(section), ToLower(key);
    DeletePairThenLoad(lines, s, k, s, k);
    if NoNewline(lines) {
      RemoveAtNoNewline(lines, Load(lines).keyLines[s][k]);
    }
    var p := Load(lines).keyLines[s][k];
    var after := Load(RemoveAt(lines, p)).data;
    LookupValueAt(after, section, key);
    LookupValueAt(Load(lines[..p]).data, section, key);
    forall s2, k2 | (ToLower(s2), ToLower(k2)) != (s, k)
      ensures Lookup(after, s2, k2) == Lookup(Load(lines).data, s2, k2)
    {
      DeletePairThenLoad(lines, s, k, ToLower(s2), ToLower(k2));
      LookupValueAt(after, s2, k2);
      LookupValueAt(Load(lines).data, s2, k2);
    }
  }
}
