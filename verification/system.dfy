/**
 * System helpers: detecting the board model from the CPU description, reading
 * and rewriting the `key=value` control file, and the camera's schedule mode.
 * Files are given as their lines (`None` when the file cannot be opened);
 * a rewritten file is returned as the lines that would be written.
 */
module SystemUtils {
  import opened Wrappers
  import opened Strings
  import opened Assoc

  // ---------------------------------------------------------------------------
  // Board model
  // ---------------------------------------------------------------------------

  /**
   * `detect_pi_model`: "5", "4" or "other" by the first marker the CPU
   * description contains, checked in that order, else "unknown" (also when
   * the description cannot be read).
   */
  function DetectPiModel(cpuinfo: Option<string>): (model: string)
    ensures model in {"5", "4", "other", "unknown"}
    ensures model == "unknown" <==> cpuinfo.None? || !Contains(cpuinfo.value, "Raspberry Pi")
    ensures model == "5" <==> cpuinfo.Some? && Contains(cpuinfo.value, "Raspberry Pi 5")
    ensures model == "4" <==> cpuinfo.Some? && !Contains(cpuinfo.value, "Raspberry Pi 5")
                              && Contains(cpuinfo.value, "Raspberry Pi 4")
  {
    if cpuinfo.None? then "unknown"
    else
      var s := cpuinfo.value;
      if Contains(s, "Raspberry Pi 5") then
        assert "Raspberry Pi" + " 5" == "Raspberry Pi 5";
        ContainsPrefixOfNeedle(s, "Raspberry Pi", " 5");
        "5"
      else if Contains(s, "Raspberry Pi 4") then
        assert "Raspberry Pi" + " 4" == "Raspberry Pi 4";
        ContainsPrefixOfNeedle(s, "Raspberry Pi", " 4");
        "4"
      else if Contains(s, "Raspberry Pi") then "other"
      else "unknown"
  }

  // ---------------------------------------------------------------------------
  // The control file
  // ---------------------------------------------------------------------------

  /** `key, value = line.strip().split('=')`: `None` where the unpacking raises. */
  function ParseLine(line: string): (r: Option<(string, string)>)
    ensures r.Some? <==> |Split(Strip(line), '=')| == 2
    ensures r.Some? ==> Strip(line) == r.value.0 + "=" + r.value.1
  {
    var parts := Split(Strip(line), '=');
    JoinSplit(Strip(line), '=');
    if |parts| == 2 then Some((parts[0], parts[1])) else None
  }

  predicate AllParse(lines: seq<string>)
  {
    forall i :: 0 <= i < |lines| ==> ParseLine(lines[i]).Some?
  }

  /** The (key, value) pair of every line, in file order. */
  function Pairs(lines: seq<string>): (pairs: seq<(string, string)>)
    requires AllParse(lines)
    ensures |pairs| == |lines|
    decreases |lines|
  {
    if lines == [] then []
    else
      var init := lines[..|lines| - 1];
      assert forall i :: 0 <= i < |init| ==> init[i] == lines[i];
      Pairs(init) + [ParseLine(lines[|lines| - 1]).value]
  }

  /** The dictionary `read_control_values` returns for the file. */
  function ControlValues(file: Option<seq<string>>): map<string, string>
  {
    if file.Some? && AllParse(file.value) then LastWins(Pairs(file.value)) else map[]
  }

  /**
   * `read_control_values`: each line maps its key to its value, later lines
   * overriding earlier ones; an unreadable file or any line that does not
   * split into exactly two parts on '=' gives the empty dictionary.
   */
  method ReadControlValues(file: Option<seq<string>>) returns (values: map<string, string>)
    ensures values == ControlValues(file)
  {
    if file.None? {
      return map[];
    }
    var lines := file.value;
    values := map[];
    var i := 0;
    while i < |lines|
      invariant 0 <= i <= |lines|
      invariant AllParse(lines[..i])
      invariant values == LastWins(Pairs(lines[..i]))
    {
      var stripped := Strip(lines[i]);
      var parts := Split(stripped, '=');
      if |parts| != 2 {
        assert !AllParse(lines) by {
          assert ParseLine(lines[i]).None?;
        }
        return map[];
      }
      ReadStep(lines, i);
      values := values[parts[0] := parts[1]];
      i := i + 1;
    }
    assert lines[..i] == lines;
  }

  /** One more line read: its pair overrides the dictionary of the lines before it. */
  lemma ReadStep(lines: seq<string>, i: int)
    requires 0 <= i < |lines| && AllParse(lines[..i]) && ParseLine(lines[i]).Some?
    ensures AllParse(lines[..i + 1])
    ensures LastWins(Pairs(lines[..i + 1]))
         == LastWins(Pairs(lines[..i]))[ParseLine(lines[i]).value.0 := ParseLine(lines[i]).value.1]
  {
    var prefix := lines[..i + 1];
    assert prefix[..i] == lines[..i] && prefix[i] == lines[i];
    assert AllParse(prefix);
    var pairs := Pairs(prefix);
    assert pairs == Pairs(lines[..i]) + [ParseLine(lines[i]).value];
    assert pairs[..|pairs| - 1] == Pairs(lines[..i]);
  }

  /** A file read successfully maps every key to the value on its last line. */
  lemma ControlValuesLastLineWins(lines: seq<string>, i: int)
    requires AllParse(lines) && 0 <= i < |lines|
    requires forall j :: i < j < |lines| ==> ParseLine(lines[j]).value.0 != ParseLine(lines[i]).value.0
    ensures ParseLine(lines[i]).value.0 in ControlValues(Some(lines))
    ensures ControlValues(Some(lines))[ParseLine(lines[i]).value.0] == ParseLine(lines[i]).value.1
  {
    PairsAt(lines, i);
    forall j | i < j < |lines|
      ensures Pairs(lines)[j].0 != Pairs(lines)[i].0
    {
      PairsAt(lines, j);
    }
    LastWinsValue(Pairs(lines), i);
  }

  lemma {:induction false} PairsAt(lines: seq<string>, i: int)
    requires AllParse(lines) && 0 <= i < |lines|
    ensures Pairs(lines)[i] == ParseLine(lines[i]).value
    decreases |lines|
  {
    if i < |lines| - 1 {
      var init := lines[..|lines| - 1];
      PairsAt(init, i);
    }
  }

  /** The line `write_control_values` writes for an existing (stripped) line. */
  function RewriteLine(line: string, values: map<string, string>): string
    requires ParseLine(line).Some?
  {
    var key := ParseLine(line).value.0;
    if key in values then key + "=" + values[key] else Strip(line)
  }

  /** The lines written back: one per existing line, in the same order. */
  function UpdatedLines(lines: seq<string>, values: map<string, string>): (out: seq<string>)
    requires AllParse(lines)
    ensures |out| == |lines|
    ensures forall i :: 0 <= i < |lines| ==> out[i] == RewriteLine(lines[i], values)
  {
    seq(|lines|, i requires 0 <= i < |lines| => RewriteLine(lines[i], values))
  }

  /** The stripped lines of the file, in order. */
  method StrippedLines(lines: seq<string>) returns (out: seq<string>)
    ensures |out| == |lines|
    ensures forall j :: 0 <= j < |lines| ==> out[j] == Strip(lines[j])
  {
    out := [];
    var i := 0;
    while i < |lines|
      invariant 0 <= i <= |lines|
      invariant |out| == i
      invariant forall j :: 0 <= j < i ==> out[j] == Strip(lines[j])
    {
      out := out + [Strip(lines[i])];
      i := i + 1;
    }
  }

  /** A line that splits into two parts is rewritten to `key=value` when its key has a new value, and kept stripped otherwise. */
  lemma RewriteStep(line: string, values: map<string, string>)
    requires |Split(Strip(line), '=')| == 2
    ensures ParseLine(line).Some?
    ensures var key := Split(Strip(line), '=')[0];
      RewriteLine(line, values) == if key in values then key + "=" + values[key] else Strip(line)
  {
  }

  /**
   * `write_control_values`: reads the file's stripped lines, replaces each
   * line whose key is in `values` by `key=value`, and writes all lines back.
   * It fails without writing when the file cannot be read, when a line does
   * not split into exactly two parts on '=', or when the file cannot be
   * opened for writing (`writable`). Returns the success flag and the lines
   * written, if any.
   */
  method WriteControlValues(values: map<string, string>, file: Option<seq<string>>, writable: bool)
      returns (ok: bool, written: Option<seq<string>>)
    ensures ok <==> file.Some? && AllParse(file.value) && writable
    ensures ok ==> written == Some(UpdatedLines(file.value, values))
    ensures !ok ==> written.None?
  {
    if file.None? {
      return false, None;
    }
    var existing := StrippedLines(file.value);
    var i := 0;
    while i < |existing|
      invariant 0 <= i <= |existing| == |file.value|
      invariant forall j :: 0 <= j < i ==> ParseLine(file.value[j]).Some?
      invariant forall j :: 0 <= j < i ==> existing[j] == RewriteLine(file.value[j], values)
      invariant forall j :: i <= j < |existing| ==> existing[j] == Strip(file.value[j])
    {
      var parts := Split(existing[i], '=');
      if |parts| != 2 {
        assert !AllParse(file.value) by {
          assert ParseLine(file.value[i]).None?;
        }
        return false, None;
      }
      var key := parts[0];
      RewriteStep(file.value[i], values);
      ghost var before := existing;
      if key in values {
        existing := existing[i := key + "=" + values[key]];
      }
      assert existing[i] == RewriteLine(file.value[i], values);
      assert forall j :: 0 <= j < |existing| && j != i ==> existing[j] == before[j];
      i := i + 1;
    }
    assert existing == UpdatedLines(file.value, values);
    if !writable {
      return false, None;
    }
    return true, Some(existing);
  }

  /** The part before '=' of a parsed line has no leading whitespace. */
  lemma KeyUntrimmedOnlyAtEnd(line: string)
    requires ParseLine(line).Some?
    ensures var key := ParseLine(line).value.0; key == [] || !IsSpace(key[0])
  {
    var key := ParseLine(line).value.0;
    StripTrimmed(line);
    if key != [] {
      assert Strip(line)[0] == key[0];
    }
  }

  /**
   * A value that survives a write and a read: no '=', which would split the
   * line into three parts; no line break, which would split it into two
   * lines; no trailing whitespace, which stripping would remove.
   */
  predicate WritableValue(v: string)
  {
    Free(v, '=') && Free(v, '\n') && Free(v, '\r') && (v == [] || !IsSpace(v[|v| - 1]))
  }

  /** A line rewritten to `key=value` reads back as that key and value. */
  lemma RewrittenLineParses(line: string, v: string)
    requires ParseLine(line).Some?
    requires WritableValue(v)
    ensures var key := ParseLine(line).value.0; ParseLine(key + "=" + v) == Some((key, v))
  {
    var key := ParseLine(line).value.0;
    var text := key + "=" + v;
    KeyUntrimmedOnlyAtEnd(line);
    assert Trimmed(text) by {
      assert text[0] == if key == [] then '=' else key[0];
      assert text[|text| - 1] == if v == [] then '=' else v[|v| - 1];
    }
    StripOfTrimmed(text);
    SplitPartsFree(Strip(line), '=');
    assert Free(key, '=');
    SplitJoin([key, v], '=');
    assert Join([key, v], '=') == text;
  }

  /** An unchanged stripped line reads back as before. */
  lemma StrippedLineParses(line: string)
    ensures ParseLine(Strip(line)) == ParseLine(line)
  {
    StripIdempotent(line);
  }

  /** Line `i` of the rewritten file reads back as the old pair with its value updated. */
  lemma UpdatedLineParses(lines: seq<string>, values: map<string, string>, i: int)
    requires AllParse(lines) && 0 <= i < |lines|
    requires forall k :: k in values ==> WritableValue(values[k])
    ensures var p := ParseLine(lines[i]).value;
      ParseLine(UpdatedLines(lines, values)[i]) == Some((p.0, if p.0 in values then values[p.0] else p.1))
  {
    var key := ParseLine(lines[i]).value.0;
    if key in values {
      RewrittenLineParses(lines[i], values[key]);
    } else {
      StrippedLineParses(lines[i]);
    }
  }

  /** The pairs of the rewritten file are the old pairs with the new values for the keys in `values`. */
  lemma PairsOfUpdatedLines(lines: seq<string>, values: map<string, string>)
    requires AllParse(lines)
    requires forall k :: k in values ==> WritableValue(values[k])
    ensures AllParse(UpdatedLines(lines, values))
    ensures Pairs(UpdatedLines(lines, values)) == UpdateValues(Pairs(lines), values)
  {
    var out := UpdatedLines(lines, values);
    forall i | 0 <= i < |lines|
      ensures ParseLine(out[i]).Some?
    {
      UpdatedLineParses(lines, values, i);
    }
    forall i | 0 <= i < |lines|
      ensures Pairs(out)[i] == UpdateValues(Pairs(lines), values)[i]
    {
      UpdatedLineParses(lines, values, i);
      PairsAt(out, i);
      PairsAt(lines, i);
      UpdateValuesAt(Pairs(lines), values, i);
    }
  }

  /**
   * Writing then reading the control file: the dictionary read back is the
   * old one with the new values for keys that were already in the file; keys
   * missing from the file are not added. This holds when the new values
   * contain no '=' and no line break and do not end in whitespace (otherwise
   * the line would not read back as written).
   */
  lemma WriteThenRead(lines: seq<string>, values: map<string, string>)
    requires AllParse(lines)
    requires forall k :: k in values ==> WritableValue(values[k])
    ensures var before := ControlValues(Some(lines));
      ControlValues(Some(UpdatedLines(lines, values)))
        == map k | k in before :: if k in values then values[k] else before[k]
  {
    PairsOfUpdatedLines(lines, values);
    LastWinsUpdate(Pairs(lines), values);
  }

  // ---------------------------------------------------------------------------
  // Schedule mode
  // ---------------------------------------------------------------------------

  /** The camera mode: DEBUG when the debug marker exists, else OFF when the off marker exists, else ARMED. */
  function ScheduleMode(debugMarker: bool, offMarker: bool): (mode: string)
    ensures mode == "DEBUG" <==> debugMarker
    ensures mode == "OFF" <==> !debugMarker && offMarker
    ensures mode == "ARMED" <==> !debugMarker && !offMarker
  {
    if debugMarker then "DEBUG" else if offMarker then "OFF" else "ARMED"
  }
}
