/** The printed text, told by nesting depth. */
module JsonDumpLaw {
  import opened Decimal
  import opened JsonDump
  import opened JsonNumber
  import opened JsonString
  import opened JsonValue

  lemma SpacesAre(n: nat)
    ensures |Spaces(n)| == n && forall i | 0 <= i < n :: Spaces(n)[i] == ' '
  {
  }

  /** A new line at some depth, when there are lines; the number of spaces is a 32-bit number. */
  function Line(pretty: bool, step: nat, depth: nat): string {
    if pretty then "\n" + Spaces(step * depth % 0x1_0000_0000) else ""
  }

  /** Every child of a container goes on a line of its own, one step deeper; the closing bracket goes on a line of
      its own, unless the container is empty. */
  function Text(number: Double -> string, j: Json, pretty: bool, step: nat, depth: nat): string
    decreases j, 1, 0
  {
    match j
    case Null => "null"
    case Bool(b) => if b then "true" else "false"
    case Int(i) =>
      var n: int := i;
      if n < 0 then "-" + ToDecimal(-n) else ToDecimal(n)
    case Uint(u) => ToDecimal(u)
    case Float(f) => number(f)
    case Str(s) => "\"" + Escaped(s) + "\""
    case Arr(a) =>
      if a == [] then "[]"
      else "[" + ElementLines(number, j, 0, pretty, step, depth + 1) + Line(pretty, step, depth) + "]"
    case Obj(o) =>
      if o == map[] then "{}"
      else
        "{" + MemberLines(number, j, SortedKeys(o.Keys), pretty, step, depth + 1) + Line(pretty, step, depth) + "}"
  }

  function ElementLines(number: Double -> string, j: Json, n: nat, pretty: bool, step: nat, depth: nat): string
    requires j.Arr? && n <= |j.a|
    decreases j, 0, |j.a| - n
  {
    if n == |j.a| then ""
    else
      Line(pretty, step, depth) + Text(number, j.a[n], pretty, step, depth)
      + (if n + 1 < |j.a| then "," else "") + ElementLines(number, j, n + 1, pretty, step, depth)
  }

  function MemberLines(number: Double -> string, j: Json, ks: seq<string>, pretty: bool, step: nat, depth: nat): string
    requires j.Obj? && forall k | k in ks :: k in j.o
    decreases j, 0, |ks|
  {
    if ks == [] then ""
    else
      Line(pretty, step, depth) + "\"" + Escaped(ks[0]) + "\":" + (if pretty then " " else "")
      + Text(number, j.o[ks[0]], pretty, step, depth)
      + (if |ks| > 1 then "," else "") + MemberLines(number, j, ks[1..], pretty, step, depth)
  }

  /** The layout at some depth. */
  function At(pretty: bool, step: nat, depth: nat): Layout {
    Layout(pretty, step, if pretty then step * depth % 0x1_0000_0000 else 0)
  }

  lemma Deeper(pretty: bool, step: nat, depth: nat)
    ensures At(pretty, step, depth).Deeper() == At(pretty, step, depth + 1)
  {
    OneMoreStep(step, depth);
    WrapEarlier(step * depth, step);
  }

  lemma OneMoreStep(step: nat, depth: nat)
    ensures step * (depth + 1) == step * depth + step
  {
  }

  /** Wrapping before something is added makes no difference. */
  lemma WrapEarlier(n: nat, more: nat)
    ensures (n % 0x1_0000_0000 + more) % 0x1_0000_0000 == (n + more) % 0x1_0000_0000
  {
    assert n + more == 0x1_0000_0000 * (n / 0x1_0000_0000) + (n % 0x1_0000_0000 + more);
  }

  lemma LineOf(pretty: bool, step: nat, depth: nat)
    ensures var l := At(pretty, step, depth); l.NewLine() + l.Indent() == Line(pretty, step, depth)
  {
    assert Spaces(0) == "";
  }

  /** `dump` prints exactly this text. */
  lemma {:induction false} DumpByDepth(number: Double -> string, j: Json, pretty: bool, step: nat, depth: nat)
    ensures Dump(number, j, At(pretty, step, depth)) == Text(number, j, pretty, step, depth)
    decreases j, 1, 0
  {
    hide SortedKeys, Sorted, DumpElements, DumpMembers, ElementLines, MemberLines, Line, Layout.Indent, Layout.Deeper,
      At, ToDecimal, Escaped, Layout.NewLine;
    var l := At(pretty, step, depth);
    Deeper(pretty, step, depth);
    LineOf(pretty, step, depth);
    var nl, ws := l.NewLine(), l.Indent();
    match j
    case Arr(a) =>
      if a != [] {
        ElementsByDepth(number, j, 0, pretty, step, depth + 1);
        Bracketed("[", nl, DumpElements(number, j, 0, l.Deeper()), ws, "]");
        SameNewLine(pretty, step, depth);
      }
    case Obj(o) =>
      if o != map[] {
        var ks := SortedKeys(o.Keys);
        assert ks != [] by { var k :| k in o; assert k in ks; }
        MembersByDepth(number, j, ks, pretty, step, depth + 1);
        Bracketed("{", nl, DumpMembers(number, j, ks, l.Deeper()), ws, "}");
        SameNewLine(pretty, step, depth);
      }
    case _ =>
  }

  lemma SameNewLine(pretty: bool, step: nat, depth: nat)
    ensures At(pretty, step, depth).NewLine() == At(pretty, step, depth + 1).NewLine()
  {
  }

  lemma Bracketed(open: string, nl: string, text: string, ws: string, close: string)
    ensures open + nl + text + nl + ws + close == open + (nl + text) + (nl + ws) + close
  {
    assert open + nl + text == open + (nl + text);
    assert open + (nl + text) + nl + ws == open + (nl + text) + (nl + ws);
  }

  lemma {:induction false} ElementsByDepth(number: Double -> string, j: Json, n: nat, pretty: bool, step: nat,
                                           depth: nat)
    requires j.Arr? && n < |j.a|
    ensures var l := At(pretty, step, depth);
      l.NewLine() + DumpElements(number, j, n, l) == ElementLines(number, j, n, pretty, step, depth)
    decreases j, 0, |j.a| - n
  {
    hide Dump, Text, Line, At, Layout.Indent, Layout.NewLine, Layout.Separator;
    var l := At(pretty, step, depth);
    var e := Dump(number, j.a[n], l);
    DumpByDepth(number, j.a[n], pretty, step, depth);
    LineOf(pretty, step, depth);
    SeparatorOf(pretty, step, depth);
    if n + 1 < |j.a| {
      ElementsByDepth(number, j, n + 1, pretty, step, depth);
      NextLine(l.NewLine(), l.Indent(), e, DumpElements(number, j, n + 1, l));
    } else {
      LastLine(l.NewLine(), l.Indent(), e);
    }
  }

  lemma SeparatorOf(pretty: bool, step: nat, depth: nat)
    ensures var l := At(pretty, step, depth); l.Separator() == "," + l.NewLine()
    ensures At(pretty, step, depth).AfterColon() == if pretty then " " else ""
  {
  }

  lemma NextLine(nl: string, ws: string, e: string, more: string)
    ensures nl + (ws + e + ("," + nl + more)) == nl + ws + e + "," + (nl + more)
  {
    assert "," + nl + more == "," + (nl + more);
    assert ws + e + ("," + (nl + more)) == ws + (e + ("," + (nl + more)));
  }

  lemma LastLine(nl: string, ws: string, e: string)
    ensures nl + (ws + e + "") == nl + ws + e + "" + ""
  {
  }

  lemma {:induction false} MembersByDepth(number: Double -> string, j: Json, ks: seq<string>, pretty: bool, step: nat,
                                          depth: nat)
    requires j.Obj? && ks != [] && forall k | k in ks :: k in j.o
    ensures var l := At(pretty, step, depth);
      l.NewLine() + DumpMembers(number, j, ks, l) == MemberLines(number, j, ks, pretty, step, depth)
    decreases j, 0, |ks|
  {
    hide Dump, Text, Line, At, Layout.Indent, Layout.NewLine, Layout.Separator, Layout.AfterColon, Escaped;
    var l := At(pretty, step, depth);
    var e := Dump(number, j.o[ks[0]], l);
    var name, gap := Escaped(ks[0]), l.AfterColon();
    DumpByDepth(number, j.o[ks[0]], pretty, step, depth);
    LineOf(pretty, step, depth);
    SeparatorOf(pretty, step, depth);
    if |ks| > 1 {
      MembersByDepth(number, j, ks[1..], pretty, step, depth);
      NextMember(l.NewLine(), l.Indent(), name, gap, e, DumpMembers(number, j, ks[1..], l));
    } else {
      LastMember(l.NewLine(), l.Indent(), name, gap, e);
    }
  }

  lemma NextMember(nl: string, ws: string, name: string, gap: string, e: string, more: string)
    ensures nl + (ws + ("\"" + name + "\"") + ":" + gap + e + ("," + nl + more))
      == nl + ws + "\"" + name + "\":" + gap + e + "," + (nl + more)
  {
    var q := "\"" + name + "\"" + ":" + gap + e;
    NextLine(nl, ws, q, more);
    assert ws + ("\"" + name + "\"") + ":" + gap + e == ws + q;
    assert nl + ws + "\"" + name + "\":" + gap + e == nl + ws + q;
  }

  lemma LastMember(nl: string, ws: string, name: string, gap: string, e: string)
    ensures nl + (ws + ("\"" + name + "\"") + ":" + gap + e + "") == nl + ws + "\"" + name + "\":" + gap + e + "" + ""
  {
    var q := "\"" + name + "\"" + ":" + gap + e;
    assert ws + ("\"" + name + "\"") + ":" + gap + e == ws + q;
    assert nl + ws + "\"" + name + "\":" + gap + e == nl + ws + q;
  }

  /** The public `dump`: one line for a negative indent, lines indented by depth otherwise. */
  lemma PrintedText(number: Double -> string, j: Json, indent: int)
    ensures DumpText(number, j, indent) ==
      if indent < 0 then Text(number, j, false, 0, 0) else Text(number, j, true, indent % 0x1_0000_0000, 0)
  {
    hide Dump, Text;
    if indent < 0 {
      DumpByDepth(number, j, false, 0, 0);
    } else {
      DumpByDepth(number, j, true, indent % 0x1_0000_0000, 0);
    }
  }
}
