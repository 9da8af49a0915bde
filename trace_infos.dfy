/**
 * TraceInfos: what is known of one trace of the trace set (its id, its
 * environment, its event map), the trace type derived from the environment,
 * and the indented listing of field descriptions.
 */
module TraceInfo {
  import opened Wrappers
  import opened Decimal

  /** A field description: its index, its name and, for a compound field, the descriptions of its members. */
  datatype FieldInfos = FieldInfos(index: nat, name: string, fieldMap: FieldMap)
  /** A possibly null pointer to a field map. */
  datatype FieldMap = NullMap | FieldMap(entries: seq<FieldEntry>)
  /** One entry of a field map; the pointer it holds may be null. */
  datatype FieldEntry = FieldEntry(key: string, infos: Option<FieldInfos>)

  /** An event description: the event's name, its id within the trace and its fields. */
  datatype EventInfos = EventInfos(name: string, id: nat, fieldMap: FieldMap)

  datatype TraceInfos = TraceInfos(path: string, id: nat, env: map<string, string>, eventMap: seq<EventInfos>, traceType: string)

  /** The trace type: "lttng-kernel" or "lttng-ust" for those two LTTng domains, "unknown" for anything else. */
  function TraceType(env: map<string, string>): (t: string)
    ensures t == "lttng-kernel" <==> "domain" in env && env["domain"] == "kernel"
    ensures t == "lttng-ust" <==> "domain" in env && env["domain"] == "ust"
    ensures t == "unknown" <==> !("domain" in env && env["domain"] in {"kernel", "ust"})
  {
    if "domain" in env && (env["domain"] == "kernel" || env["domain"] == "ust") then "lttng-" + env["domain"]
    else "unknown"
  }

  /** The constructor: store the arguments, start from "unknown" and refine it from the "domain" entry. */
  method NewTraceInfos(path: string, id: nat, env: map<string, string>, eventMap: seq<EventInfos>) returns (t: TraceInfos)
    ensures t.path == path && t.id == id && t.env == env && t.eventMap == eventMap
    ensures t.traceType == TraceType(env)
  {
    var traceType := "unknown";
    if "domain" in env {
      var domain := env["domain"];
      if domain == "kernel" || domain == "ust" {
        traceType := "lttng-";
        traceType := traceType + domain;
      }
    }
    t := TraceInfos(path, id, env, eventMap, traceType);
  }

  function Spaces(k: nat): (s: string)
    ensures |s| == k && forall i | 0 <= i < k :: s[i] == ' '
  {
    seq(k, _ => ' ')
  }

  /** One printed line: the indentation of its level, the index, a space, the name, a newline. */
  datatype Line = Line(level: nat, index: nat, name: string)

  function LineText(l: Line): string {
    Spaces(2 * l.level) + NatToString(l.index) + " " + l.name + "\n"
  }

  function Render(lines: seq<Line>): string {
    if lines == [] then "" else LineText(lines[0]) + Render(lines[1..])
  }

  function Concat(parts: seq<string>): string {
    if parts == [] then "" else parts[0] + Concat(parts[1..])
  }

  function ConcatLines(parts: seq<seq<Line>>): seq<Line> {
    if parts == [] then [] else parts[0] + ConcatLines(parts[1..])
  }

  /** printFieldInfos: nothing for a null pointer; else the node's line, then its members one level deeper. */
  function PrintFieldInfos(fi: Option<FieldInfos>, level: nat): (s: string)
    ensures fi.None? <==> s == ""
    ensures fi.Some? ==> var first := LineText(Line(level, fi.value.index, fi.value.name));
                         |first| <= |s| && s[..|first|] == first
    decreases fi
  {
    match fi
    case None => ""
    case Some(f) =>
      LineText(Line(level, f.index, f.name))
      + match f.fieldMap
        case NullMap => ""
        case FieldMap(ms) => Concat(seq(|ms|, i requires 0 <= i < |ms| => PrintFieldInfos(ms[i].infos, level + 1)))
  }

  /** The lines printFieldInfos produces, as a preorder listing of (level, index, name). */
  function Outline(fi: Option<FieldInfos>, level: nat): (r: seq<Line>)
    ensures fi.None? <==> r == []
    ensures fi.Some? ==> r[0] == Line(level, fi.value.index, fi.value.name)
    decreases fi
  {
    match fi
    case None => []
    case Some(f) =>
      [Line(level, f.index, f.name)]
      + match f.fieldMap
        case NullMap => []
        case FieldMap(ms) => ConcatLines(seq(|ms|, i requires 0 <= i < |ms| => Outline(ms[i].infos, level + 1)))
  }

  /** A member's description is a smaller value than its parent's. */
  lemma MemberSmaller(fi: Option<FieldInfos>, k: nat)
    requires fi.Some? && fi.value.fieldMap.FieldMap? && k < |fi.value.fieldMap.entries|
    ensures fi.value.fieldMap.entries[k].infos < fi
  {
    var ms := fi.value.fieldMap.entries;
    assert ms[k] in ms;
  }

  /** Every line of the listing is indented at least as deep as its root. */
  predicate AtLeast(lines: seq<Line>, level: nat) {
    forall i | 0 <= i < |lines| :: lines[i].level >= level
  }

  /**
   * The shape of an indented listing rooted at `level`: it starts at that
   * level, no line is shallower, and each line is at most one level deeper
   * than the line before it.
   */
  predicate Indented(lines: seq<Line>, level: nat) {
    AtLeast(lines, level)
    && (lines != [] ==> lines[0].level == level)
    && forall i | 0 < i < |lines| :: lines[i].level <= lines[i - 1].level + 1
  }

  lemma {:induction false} ConcatLinesIndented(parts: seq<seq<Line>>, level: nat)
    requires forall k | 0 <= k < |parts| :: Indented(parts[k], level)
    ensures AtLeast(ConcatLines(parts), level)
    ensures ConcatLines(parts) != [] ==> ConcatLines(parts)[0].level == level
    ensures forall i | 0 < i < |ConcatLines(parts)| :: ConcatLines(parts)[i].level <= ConcatLines(parts)[i - 1].level + 1
  {
    if parts != [] {
      ConcatLinesIndented(parts[1..], level);
      var a: seq<Line>, rest: seq<Line> := parts[0], ConcatLines(parts[1..]);
      assert ConcatLines(parts) == a + rest;
      if a == [] {
        assert a + rest == rest;
      } else {
        forall i | 0 <= i < |a + rest| ensures (a + rest)[i].level >= level {
          if i >= |a| {
            assert (a + rest)[i] == rest[i - |a|];
          }
        }
        forall i | 0 < i < |a + rest| ensures (a + rest)[i].level <= (a + rest)[i - 1].level + 1 {
          if i > |a| {
            assert (a + rest)[i] == rest[i - |a|] && (a + rest)[i - 1] == rest[i - 1 - |a|];
          } else if i == |a| {
            assert (a + rest)[i] == rest[0] && (a + rest)[i - 1] == a[|a| - 1];
          }
        }
      }
    }
  }

  /**
   * Members are printed one level deeper than their parent: the listing
   * starts with the node at its own level, every later line is deeper, and
   * the indentation grows by at most one level from a line to the next.
   */
  lemma {:induction false} OutlineLevels(fi: Option<FieldInfos>, level: nat)
    ensures Indented(Outline(fi, level), level)
    ensures forall i | 0 < i < |Outline(fi, level)| :: Outline(fi, level)[i].level > level
    decreases fi
  {
    if fi.Some? {
      var f := fi.value;
      var members := if f.fieldMap.FieldMap? then f.fieldMap.entries else [];
      var parts := seq(|members|, i requires 0 <= i < |members| => Outline(members[i].infos, level + 1));
      forall k | 0 <= k < |parts| ensures Indented(parts[k], level + 1) {
        MemberSmaller(fi, k);
        OutlineLevels(members[k].infos, level + 1);
      }
      ConcatLinesIndented(parts, level + 1);
      var head: Line, rest: seq<Line> := Line(level, f.index, f.name), ConcatLines(parts);
      assert Outline(fi, level) == [head] + rest;
      forall i | 0 < i < 1 + |rest| ensures ([head] + rest)[i].level > level {
        assert ([head] + rest)[i] == rest[i - 1];
      }
      forall i | 0 < i < 1 + |rest| ensures ([head] + rest)[i].level <= ([head] + rest)[i - 1].level + 1 {
        assert ([head] + rest)[i] == rest[i - 1];
        if i > 1 {
          assert ([head] + rest)[i - 1] == rest[i - 2];
        }
      }
    }
  }

  lemma {:induction false} RenderAppend(a: seq<Line>, b: seq<Line>)
    ensures Render(a + b) == Render(a) + Render(b)
  {
    if a == [] {
      assert a + b == b;
    } else {
      assert (a + b)[1..] == a[1..] + b;
      RenderAppend(a[1..], b);
    }
  }

  lemma {:induction false} RenderConcatLines(parts: seq<seq<Line>>)
    ensures Render(ConcatLines(parts)) == Concat(seq(|parts|, i requires 0 <= i < |parts| => Render(parts[i])))
  {
    if parts != [] {
      RenderAppend(parts[0], ConcatLines(parts[1..]));
      RenderConcatLines(parts[1..]);
      var whole := seq(|parts|, i requires 0 <= i < |parts| => Render(parts[i]));
      assert whole[1..] == seq(|parts[1..]|, i requires 0 <= i < |parts[1..]| => Render(parts[1..][i]));
    }
  }

  /** The printed text is exactly the rendering of the outline, one line per non-null node in preorder. */
  lemma {:induction false} PrintIsOutline(fi: Option<FieldInfos>, level: nat)
    ensures PrintFieldInfos(fi, level) == Render(Outline(fi, level))
    ensures fi.None? ==> PrintFieldInfos(fi, level) == ""
    decreases fi
  {
    if fi.Some? {
      var f := fi.value;
      var members := if f.fieldMap.FieldMap? then f.fieldMap.entries else [];
      var parts := seq(|members|, i requires 0 <= i < |members| => Outline(members[i].infos, level + 1));
      var texts := seq(|members|, i requires 0 <= i < |members| => PrintFieldInfos(members[i].infos, level + 1));
      forall k | 0 <= k < |members| ensures texts[k] == Render(parts[k]) {
        MemberSmaller(fi, k);
        PrintIsOutline(members[k].infos, level + 1);
      }
      RenderConcatLines(parts);
      assert seq(|parts|, i requires 0 <= i < |parts| => Render(parts[i])) == texts;
      RenderAppend([Line(level, f.index, f.name)], ConcatLines(parts));
      assert Render([Line(level, f.index, f.name)]) == LineText(Line(level, f.index, f.name));
    }
  }
}
