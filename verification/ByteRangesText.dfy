/** The line format in which a PartialRanges is kept on disk (internal/caches/partial_ranges.go). */
module ByteRangesText {
  import opened ByteRanges
  import opened Decimal

  /** The persistent fields of a PartialRanges. */
  datatype Snapshot = Snapshot(version: int, ranges: seq<Span>, bodySize: int, contentMD5: string)

  const INITIAL := Snapshot(2, [], 0, "")

  function SnapshotOf(r: PartialRanges): Snapshot
    reads r
  {
    Snapshot(r.version, r.ranges, r.bodySize, r.contentMD5)
  }

  // ---------- writing ----------

  function FieldLine(tag: char, field: string): string
  {
    [tag] + ":" + field
  }

  function RangeLine(r: Span): string
  {
    "r:" + FormatInt(r.0) + "," + FormatInt(r.1)
  }

  function RangeLines(rs: seq<Span>): string
  {
    if rs == [] then "" else RangeLine(rs[0]) + "\n" + RangeLines(rs[1..])
  }

  function HeadLines(s: Snapshot): string
  {
    FieldLine('v', FormatInt(s.version)) + "\n" +
    FieldLine('b', FormatInt(s.bodySize)) + "\n" +
    if |s.contentMD5| > 0 then FieldLine('m', s.contentMD5) + "\n" else ""
  }

  function Text(s: Snapshot): string
  {
    HeadLines(s) + RangeLines(s.ranges)
  }

  /** The lines of the text, in their order. */
  lemma TextFormat(s: Snapshot)
    ensures Text(s) == "v:" + FormatInt(s.version) + "\n" + "b:" + FormatInt(s.bodySize) + "\n"
                       + (if s.contentMD5 != "" then "m:" + s.contentMD5 + "\n" else "") + RangeLines(s.ranges)
    ensures s.ranges != [] ==>
      RangeLines(s.ranges) == "r:" + FormatInt(s.ranges[0].0) + "," + FormatInt(s.ranges[0].1) + "\n" + RangeLines(s.ranges[1..])
  {
    assert FieldLine('v', FormatInt(s.version)) == "v:" + FormatInt(s.version);
    assert FieldLine('b', FormatInt(s.bodySize)) == "b:" + FormatInt(s.bodySize);
    assert FieldLine('m', s.contentMD5) == "m:" + s.contentMD5;
  }

  /** The text that is stored is never empty. */
  lemma TextIsNotEmpty(s: Snapshot)
    ensures |Text(s)| > 0
  {
    assert Text(s)[0] == 'v';
  }

  lemma OneMoreLine(s: string, rs: seq<Span>, k: nat)
    requires k < |rs|
    ensures s + RangeLines(rs[k..]) == s + (RangeLine(rs[k]) + "\n") + RangeLines(rs[k + 1..])
  {
    assert rs[k..][1..] == rs[k + 1..];
  }

  method String(r: PartialRanges) returns (s: string)
    ensures s == Text(SnapshotOf(r))
  {
    s := FieldLine('v', FormatInt(r.version)) + "\n" + FieldLine('b', FormatInt(r.bodySize)) + "\n";
    if |r.contentMD5| > 0 {
      s := s + (FieldLine('m', r.contentMD5) + "\n");
    }
    assert s == HeadLines(SnapshotOf(r));
    for k := 0 to |r.ranges|
      invariant s + RangeLines(r.ranges[k..]) == Text(SnapshotOf(r))
    {
      OneMoreLine(s, r.ranges, k);
      s := s + (RangeLine(r.ranges[k]) + "\n");
    }
    assert r.ranges[|r.ranges|..] == [];
  }

  // ---------- reading ----------

  /** What one line, without its line break, changes. */
  function ApplyLine(s: Snapshot, line: string): Snapshot
  {
    var colon := IndexOf(line, ':');
    if colon <= 0 then s
    else if line[..colon] == "v" then s.(version := ParseInt(line[colon + 1..]))
    else if line[..colon] == "b" then s.(bodySize := ParseInt(line[colon + 1..]))
    else if line[..colon] == "r" then
      var comma := IndexOf(line, ',');
      if comma <= 0 then s
      else
        assert comma > colon by { assert line[..colon] == "r" && line[0] == 'r'; }
        s.(ranges := s.ranges + [(ParseInt(line[colon + 1..comma]), ParseInt(line[comma + 1..]))])
    else if line[..colon] == "m" then s.(contentMD5 := line[colon + 1..])
    else s
  }

  /** Text after the last line break is ignored. */
  function ApplyLines(s: Snapshot, data: string): Snapshot
    decreases |data|
  {
    var index := IndexOf(data, '\n');
    if index < 0 then s else ApplyLines(ApplyLine(s, data[..index]), data[index + 1..])
  }

  method NewPartialRangesFromData(data: string) returns (r: PartialRanges)
    ensures fresh(r)
    ensures SnapshotOf(r) == ApplyLines(INITIAL, data)
  {
    r := new PartialRanges();
    var rest := data;
    while true
      invariant fresh(r)
      invariant ApplyLines(SnapshotOf(r), rest) == ApplyLines(INITIAL, data)
      decreases |rest|
    {
      var index := IndexOf(rest, '\n');
      if index < 0 {
        break;
      }
      var line := rest[..index];
      var colon := IndexOf(line, ':');
      ghost var was := SnapshotOf(r);
      if colon > 0 {
        if line[..colon] == "v" {
          r.version := ParseInt(line[colon + 1..]);
        } else if line[..colon] == "b" {
          r.bodySize := ParseInt(line[colon + 1..]);
        } else if line[..colon] == "r" {
          var comma := IndexOf(line, ',');
          if comma > 0 {
            assert comma > colon by { assert line[..colon] == "r" && line[0] == 'r'; }
            r.ranges := r.ranges + [(ParseInt(line[colon + 1..comma]), ParseInt(line[comma + 1..]))];
          }
        } else if line[..colon] == "m" {
          r.contentMD5 := line[colon + 1..];
        }
      }
      assert SnapshotOf(r) == ApplyLine(was, line);
      rest := rest[index + 1..];
      if |rest| == 0 {
        break;
      }
    }
  }

  // ---------- reading back what was written ----------

  lemma ApplyFirstLine(s: Snapshot, line: string, rest: string)
    requires '\n' !in line
    ensures ApplyLines(s, line + "\n" + rest) == ApplyLines(ApplyLine(s, line), rest)
  {
    var data := line + "\n" + rest;
    assert data[..|line|] == line && data[|line|] == '\n' && data[|line| + 1..] == rest;
    IndexOfIs(data, '\n', |line|);
  }

  function WithField(s: Snapshot, tag: char, field: string): Snapshot
  {
    match tag
    case 'v' => s.(version := ParseInt(field))
    case 'b' => s.(bodySize := ParseInt(field))
    case _ => s.(contentMD5 := field)
  }

  lemma ApplyFieldLine(s: Snapshot, tag: char, field: string, rest: string)
    requires tag in "vbm" && '\n' !in field
    ensures ApplyLines(s, FieldLine(tag, field) + "\n" + rest) == ApplyLines(WithField(s, tag, field), rest)
  {
    var line := FieldLine(tag, field);
    assert line[..1] == [tag] && line[2..] == field;
    IndexOfIs(line, ':', 1);
    ApplyFirstLine(s, line, rest);
  }

  lemma ApplyRange(s: Snapshot, r: Span)
    ensures ApplyLine(s, RangeLine(r)) == s.(ranges := s.ranges + [r])
    ensures '\n' !in RangeLine(r)
  {
    var line, b, e := RangeLine(r), FormatInt(r.0), FormatInt(r.1);
    assert line == "r:" + b + "," + e;
    CutRangeLine(b, e);
    ParseIntFormat(r.0);
    ParseIntFormat(r.1);
  }

  lemma CutRangeLine(b: string, e: string)
    requires ',' !in b
    ensures var line := "r:" + b + "," + e;
      && IndexOf(line, ':') == 1 && IndexOf(line, ',') == 2 + |b|
      && line[..1] == "r" && line[2..2 + |b|] == b && line[2 + |b| + 1..] == e
  {
    var line := "r:" + b + "," + e;
    IndexOfIs(line, ':', 1);
    assert line[..2 + |b|] == "r:" + b;
    IndexOfIs(line, ',', 2 + |b|);
  }

  lemma ApplyRangeLine(s: Snapshot, r: Span, rest: string)
    ensures ApplyLines(s, RangeLine(r) + "\n" + rest) == ApplyLines(s.(ranges := s.ranges + [r]), rest)
  {
    ApplyRange(s, r);
    ApplyFirstLine(s, RangeLine(r), rest);
  }

  lemma {:induction false} ApplyRangeLines(s: Snapshot, rs: seq<Span>, result: Snapshot)
    requires result == s.(ranges := s.ranges + rs)
    ensures ApplyLines(s, RangeLines(rs)) == result
    decreases |rs|
  {
    if rs == [] {
      assert result == s;
    } else {
      var more := s.(ranges := s.ranges + [rs[0]]);
      assert result == more.(ranges := more.ranges + rs[1..]) by {
        assert s.ranges + rs == s.ranges + [rs[0]] + rs[1..];
      }
      ApplyRangeLines(more, rs[1..], result);
      ApplyRangeLine(s, rs[0], RangeLines(rs[1..]));
    }
  }

  lemma ApplyHeadLines(s: Snapshot, rest: string)
    requires '\n' !in s.contentMD5
    ensures ApplyLines(INITIAL, HeadLines(s) + rest) == ApplyLines(s.(ranges := []), rest)
  {
    var v, b, m := FormatInt(s.version), FormatInt(s.bodySize), s.contentMD5;
    var mLine := if |m| > 0 then FieldLine('m', m) + "\n" else "";
    var vLine, bLine := FieldLine('v', v) + "\n", FieldLine('b', b) + "\n";
    assert HeadLines(s) + rest == vLine + (bLine + (mLine + rest));
    ParseIntFormat(s.version);
    ParseIntFormat(s.bodySize);
    ApplyFieldLine(INITIAL, 'v', v, bLine + (mLine + rest));
    ApplyFieldLine(INITIAL.(version := s.version), 'b', b, mLine + rest);
    if |m| > 0 {
      ApplyFieldLine(INITIAL.(version := s.version, bodySize := s.bodySize), 'm', m, rest);
    } else {
      assert mLine + rest == rest;
    }
  }

  /** Every snapshot whose digest holds no line break is read back exactly. */
  lemma TextRoundTrip(s: Snapshot)
    requires '\n' !in s.contentMD5
    ensures ApplyLines(INITIAL, Text(s)) == s
  {
    ApplyHeadLines(s, RangeLines(s.ranges));
    assert [] + s.ranges == s.ranges;
    ApplyRangeLines(s.(ranges := []), s.ranges, s);
  }

  /** Saving a set and loading it gives the same set, still normal. */
  method SaveAndLoad(r: PartialRanges) returns (loaded: PartialRanges)
    requires r.Valid() && '\n' !in r.contentMD5
    ensures fresh(loaded) && loaded.Valid()
    ensures SnapshotOf(loaded) == SnapshotOf(r)
  {
    var data := String(r);
    TextRoundTrip(SnapshotOf(r));
    loaded := NewPartialRangesFromData(data);
  }
}
