/** The class `IniFile` of initool.cpp (lines 63-219): a line store and the
    index built over it, edited in place by `set` and `del`. The file itself
    is not part of the model: `load` takes the lines `std::getline` would
    read, and `write` returns the text it would write. */
module Ini {
  import opened Wrappers
  import opened Utility
  import opened LineIO
  import opened Loader
  import opened Editing

  class IniFile {
    /** `lines_`: the raw lines, verbatim. */
    var lines: seq<string>
    /** `section_lines_`: folded section name to its anchor line. */
    var sectionLines: map<string, nat>
    /** `key_lines_`: folded section and key to the key's line. */
    var keyLines: map<string, map<string, nat>>
    /** `data_`: folded section and key to the unquoted value. */
    var data: map<string, map<string, string>>

    /** Every stored line number is a line of the store: what `set` needs
        of the object and keeps. */
    ghost predicate Valid()
      reads this
    {
      InBounds(|lines|, sectionLines, keyLines)
    }

    /** The index describes the lines: what `load` establishes and `del`
        keeps (`set` leaves the index as it was, so not this). */
    ghost predicate Indexed()
      reads this
    {
      Consistent(Kinds(lines), sectionLines, keyLines, data)
    }

    /** The constructor, which runs `load` (initool.cpp:176-207) over the
        lines of the file. */
    constructor (input: seq<string>)
      ensures lines == input
      ensures sectionLines == Load(input).sections
      ensures keyLines == Load(input).keyLines
      ensures data == Load(input).data
      ensures Indexed() && Valid()
    {
      lines := [];
      sectionLines := map[];
      keyLines := map[];
      data := map[];
      new;
      var current := "";
      var lineno := 0;
      while lineno < |input|
        invariant 0 <= lineno <= |input|
        invariant lines == input[..lineno]
        invariant LoadState(current, sectionLines, keyLines, data) == Fold(Kinds(input), lineno)
      {
        FoldNext(input, lineno);
        assert input[..lineno + 1] == input[..lineno] + [input[lineno]];
        current := LoadLine(input[lineno], lineno, current);
        lineno := lineno + 1;
      }
      assert lines == input;
      assert LoadState(current, sectionLines, keyLines, data) == Load(input);
      LoadConsistent(input);
    }

    /** One pass of the loop body of `load` (initool.cpp:186-205): the line
        is stored, and a header or an assignment inside a named section
        updates the index as `Step` says. */
    method LoadLine(line: string, lineno: nat, current: string) returns (next: string)
      modifies this
      ensures lines == old(lines) + [line]
      ensures LoadState(next, sectionLines, keyLines, data)
              == Step(LoadState(current, old(sectionLines), old(keyLines), old(data)), Classify(line), lineno)
    {
      lines := lines + [line];
      ghost var st := LoadState(current, sectionLines, keyLines, data);
      var t := Trim(line);
      StepOfLine(st, line, t, lineno);
      var sl, kl, d := sectionLines, keyLines, data;
      next := current;
      if t == [] || StartsWith(t, ';') {
      } else if IsSectionHeader(t) {
        next := ToLower(Trim(t[1..|t| - 1]));
        sl := sl[next := lineno];
      } else if current != [] {
        var found := Find(t, '=');
        if found.Some? {
          var pos := found.value;
          var key := ToLower(Trim(t[..pos]));
          var val := Unquote(Trim(t[pos + 1..]));
          d := d[current := Table(d, current)[key := val]];
          kl := kl[current := Table(kl, current)[key := lineno]];
        }
      }
      assert LoadState(next, sl, kl, d) == Step(st, Classify(line), lineno);
      sectionLines, keyLines, data := sl, kl, d;
    }

    /** `get` (initool.cpp:70-79), which changes nothing. On an indexed
        object it succeeds exactly for an indexed pair and returns the value
        that pair's line assigns; every failure is "key not found". */
    function Get(section: string, key: string): (r: Result<string>)
      reads this
      ensures r.Err? ==> r.msg == KeyNotFound
      ensures Indexed() ==>
                (r.Ok? <==> ToLower(section) in keyLines && ToLower(key) in keyLines[ToLower(section)])
      ensures Indexed() && r.Ok? ==>
                Kinds(lines)[keyLines[ToLower(section)][ToLower(key)]] == Assignment(ToLower(key), r.value)
    {
      Lookup(data, section, key)
    }

    /** The loop of `write` (initool.cpp:215-216): the text written. */
    method Write() returns (text: string)
      ensures text == Serialize(lines)
    {
      text := [];
      var i := 0;
      while i < |lines|
        invariant 0 <= i <= |lines|
        invariant text == Serialize(lines[..i])
      {
        SerializeSnoc(lines[..i], lines[i]);
        assert lines[..i + 1] == lines[..i] + [lines[i]];
        text := text + lines[i] + "\n";
        i := i + 1;
      }
      assert lines[..i] == lines;
    }

    /** `set` (initool.cpp:81-126). Only the line store changes (and possibly
        an empty key table appears); the text written is returned. */
    method Set(section: string, key: string, value: string) returns (written: string)
      requires Valid()
      modifies this
      ensures Valid()
      ensures lines == SetLines(old(lines), old(sectionLines), old(keyLines), section, key, value)
      ensures keyLines == SetKeyLines(old(sectionLines), old(keyLines), section)
      ensures sectionLines == old(sectionLines) && data == old(data)
      ensures written == Serialize(lines)
    {
      SetKeepsInBounds(lines, sectionLines, keyLines, section, key, value);
      ghost var after := SetLines(lines, sectionLines, keyLines, section, key, value);
      var secLower := ToLower(section);
      var keyLower := ToLower(key);
      if secLower !in sectionLines {
        if |lines| > 0 && Trim(lines[|lines| - 1]) != [] {
          lines := lines + [""];
        }
        lines := lines + ["[" + section + "]"];
        lines := lines + [NewKeyLine(key, value)];
      } else {
        var sectionLine := sectionLines[secLower];
        if secLower !in keyLines {
          keyLines := keyLines[secLower := map[]];
        }
        var keys := keyLines[secLower];
        if keyLower in keys {
          var lineNo := keys[keyLower];
          lines := lines[lineNo := RewrittenLine(lines[lineNo], value)];
        } else {
          var insertAt := ScanInsertPosition(lines, sectionLine);
          lines := InsertAt(lines, insertAt, NewKeyLine(key, value));
        }
      }
      assert lines == after;
      written := Write();
    }

    /** `del` (initool.cpp:128-167). It succeeds exactly for an indexed pair.
        An unknown section and an unknown key fail with their own messages
        and change nothing. Otherwise the key's
        line is erased, the key leaves both tables, every stored line number
        above the erased line moves down by one, the index stays consistent
        and the text written is returned. */
    method Del(section: string, key: string) returns (r: Result<string>)
      requires Indexed()
      modifies this
      ensures Indexed() && Valid()
      ensures r.Ok? <==> ToLower(section) in old(keyLines) && ToLower(key) in old(keyLines)[ToLower(section)]
      ensures ToLower(section) !in old(keyLines) ==> r == Err(SectionNotFound)
      ensures ToLower(section) in old(keyLines) && ToLower(key) !in old(keyLines)[ToLower(section)] ==>
                r == Err(KeyNotFound)
      ensures r.Err? ==> unchanged(this)
      ensures r.Ok? ==>
                var s, k := ToLower(section), ToLower(key);
                && s in old(keyLines) && k in old(keyLines)[s]
                && var lineNo := old(keyLines)[s][k];
                && lines == RemoveAt(old(lines), lineNo)
                && keyLines == ShiftKeyLines(old(keyLines)[s := old(keyLines)[s] - {k}], lineNo)
                && data == old(data)[s := Table(old(data), s) - {k}]
                && sectionLines == ShiftLines(old(sectionLines), lineNo)
                && r.value == Serialize(lines)
    {
      var secLower := ToLower(section);
      var keyLower := ToLower(key);
      if secLower !in keyLines {
        return Err(SectionNotFound);
      }
      if keyLower !in keyLines[secLower] {
        return Err(KeyNotFound);
      }
      var lineNo := keyLines[secLower][keyLower];
      DeleteKeepsConsistent(Kinds(lines), sectionLines, keyLines, data, secLower, keyLower);
      KindsRemoveAt(lines, lineNo);

      lines := RemoveAt(lines, lineNo);
      data := data[secLower := Table(data, secLower) - {keyLower}];
      keyLines := keyLines[secLower := keyLines[secLower] - {keyLower}];

      keyLines := RenumberKeyLines(keyLines, lineNo);
      sectionLines := Renumber(sectionLines, lineNo);
      ConsistentEntriesDistinct(Kinds(lines), sectionLines, keyLines, data);

      var text := Write();
      return Ok(text);
    }
  }
}
