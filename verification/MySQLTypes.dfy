/**
 MySQL ENUM and SET types (dialect/dialect.go, inspect/inspect.go): the printer
 of a native type and the hand-written scanners that read it back. A byte is
 modelled by the char of its value; nothing below bounds the chars.
 */
module MySQLTypes {
  import opened Wrappers

  datatype Kind = NativeEnum | NativeSet

  // ---------- the printer ----------

  function ReplaceAll(s: string, from: char, to: string): string {
    if s == [] then [] else (if s[0] == from then to else [s[0]]) + ReplaceAll(s[1..], from, to)
  }

  function Escaped(text: string): string {
    ReplaceAll(ReplaceAll(text, '\\', "\\\\"), '\'', "''")
  }

  function Literal(text: string): string { "'" + Escaped(text) + "'" }

  function Arguments(labels: seq<string>): string {
    if labels == [] then []
    else if |labels| == 1 then Literal(labels[0])
    else Literal(labels[0]) + ", " + Arguments(labels[1..])
  }

  function KindName(kind: Kind): string { if kind == NativeSet then "SET" else "ENUM" }

  function NativeTypeName(kind: Kind, labels: seq<string>): string {
    KindName(kind) + "(" + Arguments(labels) + ")"
  }

  // ---------- the argument parser ----------

  predicate IsBlank(c: char) { c == ' ' || c == '\t' || c == '\n' || c == '\r' }

  function SkipBlanks(value: string, i: nat): (r: nat)
    requires i <= |value|
    ensures i <= r <= |value| && (r < |value| ==> !IsBlank(value[r]))
    decreases |value| - i
  {
    if i == |value| || !IsBlank(value[i]) then i else SkipBlanks(value, i + 1)
  }

  function Unescape(c: char): char {
    match c
    case '0' => '\0'
    case 'b' => '\U{8}'
    case 'n' => '\n'
    case 'r' => '\r'
    case 't' => '\t'
    case 'Z' => '\U{1A}'
    case _ => c
  }

  datatype Label = Label(text: string, next: nat)

  function Following(c: char, r: Option<Label>): Option<Label> {
    if r.None? then None else Some(Label([c] + r.value.text, r.value.next))
  }

  /** The label whose opening quote precedes `i`, and the index after its closing quote. */
  function LabelFrom(value: string, i: nat): (r: Option<Label>)
    requires i <= |value|
    ensures r.Some? ==> i < r.value.next <= |value| && value[r.value.next - 1] == '\''
    decreases |value| - i
  {
    if i == |value| then None
    else if value[i] == '\\' then
      if i + 1 == |value| then None else Following(Unescape(value[i + 1]), LabelFrom(value, i + 2))
    else if value[i] != '\'' then Following(value[i], LabelFrom(value, i + 1))
    else if i + 1 < |value| && value[i + 1] == '\'' then Following('\'', LabelFrom(value, i + 2))
    else Some(Label([], i + 1))
  }

  function Prepend(labels: seq<string>, r: Option<seq<string>>): Option<seq<string>> {
    if r.None? then None else Some(labels + r.value)
  }

  function ParseFrom(value: string, i: nat): Option<seq<string>>
    requires i <= |value|
    decreases |value| - i
  {
    var open := SkipBlanks(value, i);
    if open == |value| || value[open] != '\'' then None else
    var read := LabelFrom(value, open + 1);
    if read.None? then None else
    var end := SkipBlanks(value, read.value.next);
    if end == |value| then Some([read.value.text])
    else if value[end] != ',' then None
    else Prepend([read.value.text], ParseFrom(value, end + 1))
  }

  method SkipBlanksFrom(value: string, from: nat) returns (index: nat)
    requires from <= |value|
    ensures index == SkipBlanks(value, from)
  {
    index := from;
    while index < |value| && IsBlank(value[index])
      invariant from <= index <= |value| && SkipBlanks(value, index) == SkipBlanks(value, from)
    {
      index := index + 1;
    }
  }

  function Continue(builder: string, r: Option<Label>): Option<Label> {
    if r.None? then None else Some(Label(builder + r.value.text, r.value.next))
  }

  lemma {:induction false} ContinueFollowing(builder: string, c: char, r: Option<Label>)
    ensures Continue(builder, Following(c, r)) == Continue(builder + [c], r)
    ensures Continue([], r) == r
  {
    assert r.Some? ==> builder + ([c] + r.value.text) == builder + [c] + r.value.text;
    assert r.Some? ==> [] + r.value.text == r.value.text;
  }

  /** Reads one label; `from` is the index after its opening quote. */
  method ReadLabel(value: string, from: nat) returns (r: Option<Label>)
    requires from <= |value|
    ensures r == LabelFrom(value, from)
  {
    var index := from;
    var builder: string := [];
    ContinueFollowing([], ' ', LabelFrom(value, from));
    while index < |value|
      invariant from <= index <= |value|
      invariant LabelFrom(value, from) == Continue(builder, LabelFrom(value, index))
    {
      var current := value[index];
      index := index + 1;
      if current == '\\' {
        if index >= |value| {
          return None;
        }
        ContinueFollowing(builder, Unescape(value[index]), LabelFrom(value, index + 1));
        builder := builder + [Unescape(value[index])];
        index := index + 1;
      } else if current == '\'' {
        if index == |value| || value[index] != '\'' {
          assert builder + [] == builder;
          return Some(Label(builder, index));
        }
        ContinueFollowing(builder, '\'', LabelFrom(value, index + 1));
        builder := builder + ['\''];
        index := index + 1;
      } else {
        ContinueFollowing(builder, current, LabelFrom(value, index));
        builder := builder + [current];
      }
    }
    return None;
  }

  /** The labels of a comma-separated list of quoted literals. */
  method ParseMySQLTypeArguments(value: string) returns (r: Option<seq<string>>)
    ensures r == ParseFrom(value, 0)
  {
    var arguments: seq<string> := [];
    var index := 0;
    PrependNothing(ParseFrom(value, 0));
    while index < |value|
      invariant 0 <= index <= |value|
      invariant ParseFrom(value, 0) == Prepend(arguments, ParseFrom(value, index))
    {
      ghost var start := index;
      index := SkipBlanksFrom(value, index);
      if index >= |value| || value[index] != '\'' {
        return None;
      }
      var read := ReadLabel(value, index + 1);
      if read.None? {
        return None;
      }
      index := SkipBlanksFrom(value, read.value.next);
      if index == |value| {
        return Some(arguments + [read.value.text]);
      }
      if value[index] != ',' {
        return None;
      }
      index := index + 1;
      PrependTwice(arguments, [read.value.text], ParseFrom(value, index));
      arguments := arguments + [read.value.text];
    }
    return None;
  }

  lemma {:induction false} PrependNothing(r: Option<seq<string>>)
    ensures Prepend([], r) == r
  {
    assert r.Some? ==> [] + r.value == r.value;
  }

  lemma {:induction false} PrependTwice(a: seq<string>, b: seq<string>, r: Option<seq<string>>)
    ensures Prepend(a, Prepend(b, r)) == Prepend(a + b, r)
  {
    assert r.Some? ==> a + (b + r.value) == (a + b) + r.value;
  }

  // ---------- mysqlNativeType ----------

  datatype NativeType = NotNative | Malformed | Native(kind: Kind, name: string, labels: seq<string>)

  predicate IsSpace(c: char) { IsBlank(c) || c == '\U{B}' || c == '\U{C}' }

  function TrimSpace(s: string): string {
    if s == [] then []
    else if IsSpace(s[0]) then TrimSpace(s[1..])
    else if IsSpace(s[|s| - 1]) then TrimSpace(s[..|s| - 1])
    else s
  }

  function Upper(c: char): char { if 'a' <= c <= 'z' then c - 'a' + 'A' else c }

  function Lower(c: char): char { if 'A' <= c <= 'Z' then c - 'A' + 'a' else c }

  function MapChars(s: string, f: char -> char): (r: string)
    ensures |r| == |s| && forall i :: 0 <= i < |s| ==> r[i] == f(s[i])
  {
    if s == [] then [] else [f(s[0])] + MapChars(s[1..], f)
  }

  function IndexOf(s: string, c: char): (i: nat)
    ensures i <= |s| && (i < |s| ==> s[i] == c) && forall k :: 0 <= k < i ==> s[k] != c
  {
    if s == [] || s[0] == c then 0
    else
      var i := IndexOf(s[1..], c);
      assert forall k :: 1 <= k < i + 1 ==> s[k] == s[1..][k - 1];
      i + 1
  }

  /** Which kind of type the upper-cased text begins with. */
  function KindOf(upper: string): Option<Kind> {
    if "ENUM(" <= upper then Some(NativeEnum) else if "SET(" <= upper then Some(NativeSet) else None
  }

  function MySQLNativeType(declaration: string): NativeType { NativeTypeOf(TrimSpace(declaration)) }

  function NativeTypeOf(value: string): NativeType {
    var kind := KindOf(MapChars(value, Upper));
    if kind.None? then NotNative else
    var start := IndexOf(value, '(');
    if start >= |value| - 1 || value[|value| - 1] != ')' then Malformed else
    var labels := ParseFrom(value[start + 1..|value| - 1], 0);
    if labels.None? then Malformed else Native(kind.value, MapChars(value[..start], Lower), labels.value)
  }

  // ---------- the round trip ----------

  lemma {:induction false} ReplaceAllAppend(a: string, b: string, from: char, to: string)
    ensures ReplaceAll(a + b, from, to) == ReplaceAll(a, from, to) + ReplaceAll(b, from, to)
  {
    if a == [] {
      assert a + b == b;
    } else {
      assert (a + b)[1..] == a[1..] + b;
      ReplaceAllAppend(a[1..], b, from, to);
    }
  }

  function Encoded(c: char): string {
    if c == '\\' then "\\\\" else if c == '\'' then "''" else [c]
  }

  lemma {:induction false} EscapedStep(text: string)
    requires text != []
    ensures Escaped(text) == Encoded(text[0]) + Escaped(text[1..])
  {
    var c, rest := text[0], ReplaceAll(text[1..], '\\', "\\\\");
    var head := if c == '\\' then "\\\\" else [c];
    ReplaceAllAppend(head, rest, '\'', "''");
    assert head[1..] == if c == '\\' then "\\" else [];
    assert ReplaceAll("\\", '\'', "''") == "\\" + ReplaceAll([], '\'', "''") by {
      assert "\\"[1..] == [];
    }
    assert ReplaceAll(head, '\'', "''") == Encoded(c);
  }

  /** `s` stands in `value` at index `i`. */
  ghost predicate At(value: string, i: nat, s: string) {
    i + |s| <= |value| && forall k :: 0 <= k < |s| ==> value[i + k] == s[k]
  }

  lemma {:induction false} AtSplit(value: string, i: nat, a: string, b: string)
    requires At(value, i, a + b)
    ensures At(value, i, a) && At(value, i + |a|, b)
  {
    assert forall k :: 0 <= k < |a| ==> (a + b)[k] == a[k];
    forall k | 0 <= k < |b|
      ensures value[i + |a| + k] == b[k]
    {
      assert (a + b)[|a| + k] == b[k];
    }
  }

  lemma {:induction false} LabelRoundTrip(value: string, i: nat, text: string)
    requires At(value, i, Escaped(text))
    requires i + |Escaped(text)| < |value| && value[i + |Escaped(text)|] == '\''
    requires i + |Escaped(text)| + 1 < |value| ==> value[i + |Escaped(text)| + 1] != '\''
    ensures LabelFrom(value, i) == Some(Label(text, i + |Escaped(text)| + 1))
    decreases |text|
  {
    if text != [] {
      EscapedStep(text);
      var head := Encoded(text[0]);
      AtSplit(value, i, head, Escaped(text[1..]));
      LabelRoundTrip(value, i + |head|, text[1..]);
      assert text == [text[0]] + text[1..];
      assert value[i] == head[0] && (|head| == 2 ==> value[i + 1] == head[1]);
    }
  }

  lemma {:induction false} LiteralAt(value: string, i: nat, text: string)
    requires At(value, i, Literal(text))
    requires i + |Literal(text)| < |value| ==> value[i + |Literal(text)|] == ','
    ensures value[i] == '\''
    ensures LabelFrom(value, i + 1) == Some(Label(text, i + |Literal(text)|))
  {
    assert Literal(text) == "'" + (Escaped(text) + "'");
    AtSplit(value, i, "'", Escaped(text) + "'");
    AtSplit(value, i + 1, Escaped(text), "'");
    assert value[i] == "'"[0];
    assert value[i + 1 + |Escaped(text)|] == "'"[0];
    LabelRoundTrip(value, i + 1, text);
  }

  lemma {:induction false} ParseStep(value: string, i: nat, text: string, end: nat)
    requires i < |value| && value[i] == '\'' && LabelFrom(value, i + 1) == Some(Label(text, end))
    requires end + 2 < |value| && value[end] == ',' && value[end + 1] == ' ' && value[end + 2] == '\''
    ensures ParseFrom(value, i) == Prepend([text], ParseFrom(value, end + 2))
  {
    AfterLabel(value, i, text, end);
    ParseBlank(value, end + 1);
  }

  lemma {:induction false} ParseBlank(value: string, i: nat)
    requires i < |value| && IsBlank(value[i])
    ensures ParseFrom(value, i) == ParseFrom(value, i + 1)
  {
    assert SkipBlanks(value, i) == SkipBlanks(value, i + 1);
    assert SkipBlanks(value, SkipBlanks(value, i)) == SkipBlanks(value, i);
  }

  lemma {:induction false} ParseLast(value: string, i: nat, text: string)
    requires i < |value| && value[i] == '\'' && LabelFrom(value, i + 1) == Some(Label(text, |value|))
    ensures ParseFrom(value, i) == Some([text])
  {
    assert SkipBlanks(value, i) == i;
  }

  /** `value` continues at `i` with a literal, a comma, a blank and the other literals. */
  lemma {:induction false} ArgumentsSplit(value: string, i: nat, labels: seq<string>)
    requires |labels| > 1 && At(value, i, Arguments(labels))
    ensures var end := i + |Literal(labels[0])|;
            && At(value, i, Literal(labels[0])) && At(value, end + 2, Arguments(labels[1..]))
            && end + 2 + |Arguments(labels[1..])| == i + |Arguments(labels)|
            && value[end] == ',' && value[end + 1] == ' '
  {
    AtSeparated(value, i, Literal(labels[0]), Arguments(labels[1..]));
  }

  lemma {:induction false} AtSeparated(value: string, i: nat, a: string, b: string)
    requires At(value, i, a + ", " + b)
    ensures At(value, i, a) && At(value, i + |a| + 2, b)
    ensures value[i + |a|] == ',' && value[i + |a| + 1] == ' '
  {
    AtSplit(value, i, a + ", ", b);
    AtSplit(value, i, a, ", ");
    assert value[i + |a| + 0] == ", "[0] && value[i + |a| + 1] == ", "[1];
  }

  lemma {:induction false} ArgumentsRoundTrip(value: string, i: nat, labels: seq<string>)
    requires labels != [] && At(value, i, Arguments(labels)) && i + |Arguments(labels)| == |value|
    ensures ParseFrom(value, i) == Some(labels)
    decreases |labels|
  {
    if |labels| == 1 {
      LiteralAt(value, i, labels[0]);
      ParseLast(value, i, labels[0]);
      assert labels == [labels[0]];
    } else {
      ArgumentsFirst(value, i, labels);
      ArgumentsRoundTrip(value, i + |Literal(labels[0])| + 2, labels[1..]);
      assert labels == [labels[0]] + labels[1..];
    }
  }

  /** Reading the first of several labels leaves the others to be read. */
  lemma {:induction false} ArgumentsFirst(value: string, i: nat, labels: seq<string>)
    requires |labels| > 1 && At(value, i, Arguments(labels))
    ensures var next := i + |Literal(labels[0])| + 2;
            && At(value, next, Arguments(labels[1..])) && next + |Arguments(labels[1..])| == i + |Arguments(labels)|
            && ParseFrom(value, i) == Prepend([labels[0]], ParseFrom(value, next))
  {
    var end := i + |Literal(labels[0])|;
    ArgumentsSplit(value, i, labels);
    LiteralAt(value, i, labels[0]);
    LiteralHead(value, end + 2, labels[1..]);
    ParseStep(value, i, labels[0], end);
  }

  lemma {:induction false} LiteralHead(value: string, i: nat, labels: seq<string>)
    requires labels != [] && At(value, i, Arguments(labels))
    ensures i < |value| && value[i] == '\''
  {
    assert value[i + 0] == Arguments(labels)[0];
  }

  lemma {:induction false} NameSplits(name: string, body: string)
    requires name != [] && !IsSpace(name[0]) && forall k :: 0 <= k < |name| ==> name[k] != '('
    ensures var value := name + "(" + body + ")";
            && IndexOf(value, '(') == |name| < |value| - 1 && value[|value| - 1] == ')'
            && value[..|name|] == name && value[|name| + 1..|value| - 1] == body
            && TrimSpace(value) == value
  {
    var value := name + "(" + body + ")";
    assert value[|name|] == '(' && value[|value| - 1] == ')';
    assert forall k :: 0 <= k < |name| ==> value[k] == name[k];
  }

  lemma {:induction false} EnumPrefix(upper: string)
    requires |upper| >= 5
    requires upper[0] == 'E' && upper[1] == 'N' && upper[2] == 'U' && upper[3] == 'M' && upper[4] == '('
    ensures KindOf(upper) == Some(NativeEnum)
  {
    assert upper[..5] == "ENUM(";
  }

  lemma {:induction false} SetPrefix(upper: string)
    requires |upper| >= 4 && upper[0] == 'S' && upper[1] == 'E' && upper[2] == 'T' && upper[3] == '('
    ensures KindOf(upper) == Some(NativeSet)
  {
    assert upper[..4] == "SET(";
    assert "ENUM("[0] != upper[0];
  }

  /** What the printer writes the parser reads back: the same kind and exactly the same labels. */
  lemma {:induction false} NativeTypeRoundTrip(kind: Kind, labels: seq<string>)
    requires labels != []
    ensures MySQLNativeType(NativeTypeName(kind, labels))
            == Native(kind, if kind == NativeSet then "set" else "enum", labels)
  {
    if kind == NativeEnum {
      EnumInAnyCase("ENUM", labels);
    } else {
      SetInAnyCase("SET", labels);
    }
  }

  // ---------- what else the parser accepts ----------

  /** The six escapes MySQL gives a meaning; a backslash before any other character is dropped. */
  lemma {:induction false} EscapeRead(c: char)
    ensures LabelFrom(['\\', c, '\''], 0)
            == Some(Label([if c == '0' then '\0' else if c == 'b' then '\U{8}' else if c == 'n' then '\n'
                           else if c == 'r' then '\r' else if c == 't' then '\t' else if c == 'Z' then '\U{1A}' else c], 3))
  {
    var value := ['\\', c, '\''];
    assert LabelFrom(value, 2) == Some(Label([], 3));
    assert [Unescape(c)] + [] == [Unescape(c)];
  }

  /** Before a label only blanks are passed over; anything but a quote is refused. */
  lemma {:induction false} BlanksExactly(value: string, i: nat)
    requires i < |value|
    ensures value[i] == ' ' || value[i] == '\t' || value[i] == '\n' || value[i] == '\r' ==>
              ParseFrom(value, i) == ParseFrom(value, i + 1)
    ensures !(value[i] == ' ' || value[i] == '\t' || value[i] == '\n' || value[i] == '\r' || value[i] == '\'') ==>
              ParseFrom(value, i) == None
  {
    if IsBlank(value[i]) {
      ParseBlank(value, i);
    } else {
      assert SkipBlanks(value, i) == i;
    }
  }

  /** After a label the list ends, or a comma and more of it follow; anything else is refused. */
  lemma {:induction false} AfterLabel(value: string, i: nat, text: string, next: nat)
    requires i < |value| && value[i] == '\'' && LabelFrom(value, i + 1) == Some(Label(text, next))
    ensures next == |value| ==> ParseFrom(value, i) == Some([text])
    ensures next < |value| && value[next] == ',' ==> ParseFrom(value, i) == Prepend([text], ParseFrom(value, next + 1))
    ensures next < |value| && value[next] != ',' && !IsBlank(value[next]) ==> ParseFrom(value, i) == None
  {
    assert SkipBlanks(value, i) == i;
  }

  /** A list without labels, and a label without its closing quote, are refused. */
  lemma {:induction false} Incomplete(text: string)
    requires '\'' !in text && '\\' !in text
    ensures ParseFrom("", 0) == None && LabelFrom(text, 0) == None
  {
    NeverCloses(text, 0);
  }

  lemma {:induction false} NeverCloses(text: string, i: nat)
    requires '\'' !in text && '\\' !in text && i <= |text|
    ensures LabelFrom(text, i) == None
    decreases |text| - i
  {
    if i < |text| {
      assert text[i] in text;
      NeverCloses(text, i + 1);
    }
  }

  /** Only a declaration that begins like one of the two names and ends with a parenthesis is read as one of them. */
  lemma {:induction false} NativeShape(value: string)
    ensures NativeTypeOf(value).Native? ==>
              |value| > 4 && value[|value| - 1] == ')'
              && (value[0] == 'E' || value[0] == 'e' || value[0] == 'S' || value[0] == 's')
    ensures !(value != [] && (value[0] == 'E' || value[0] == 'e' || value[0] == 'S' || value[0] == 's')) ==> NativeTypeOf(value) == NotNative
  {
    var upper := MapChars(value, Upper);
    assert "ENUM(" <= upper ==> upper[0] == "ENUM("[0] && |upper| >= 5;
    assert "SET(" <= upper ==> upper[0] == "SET("[0] && |upper| >= 4;
    assert value != [] ==> (upper[0] == 'E' <==> value[0] == 'E' || value[0] == 'e') && (upper[0] == 'S' <==> value[0] == 'S' || value[0] == 's');
  }

  /** A declaration whose parts are known reads as those parts. */
  lemma {:induction false} ReadsAs(kind: Kind, name: string, lower: string, labels: seq<string>)
    requires labels != [] && name != [] && !IsSpace(name[0]) && forall k :: 0 <= k < |name| ==> name[k] != '('
    requires KindOf(MapChars(name + "(" + Arguments(labels) + ")", Upper)) == Some(kind) && MapChars(name, Lower) == lower
    ensures MySQLNativeType(name + "(" + Arguments(labels) + ")") == Native(kind, lower, labels)
  {
    NameSplits(name, Arguments(labels));
    ArgumentsRoundTrip(Arguments(labels), 0, labels);
  }

  /** The name of the type is read in either case. */
  lemma {:induction false} EnumInAnyCase(name: string, labels: seq<string>)
    requires labels != [] && |name| == 4 && (name[0] == 'E' || name[0] == 'e') && (name[1] == 'N' || name[1] == 'n')
    requires (name[2] == 'U' || name[2] == 'u') && (name[3] == 'M' || name[3] == 'm')
    ensures MySQLNativeType(name + "(" + Arguments(labels) + ")") == Native(NativeEnum, "enum", labels)
  {
    EnumKind(name, Arguments(labels));
    ReadsAs(NativeEnum, name, "enum", labels);
  }

  lemma {:induction false} EnumKind(name: string, body: string)
    requires |name| == 4 && (name[0] == 'E' || name[0] == 'e') && (name[1] == 'N' || name[1] == 'n')
    requires (name[2] == 'U' || name[2] == 'u') && (name[3] == 'M' || name[3] == 'm')
    ensures KindOf(MapChars(name + "(" + body + ")", Upper)) == Some(NativeEnum) && MapChars(name, Lower) == "enum"
  {
    var value := name + "(" + body + ")";
    assert value[0] == name[0] && value[1] == name[1] && value[2] == name[2] && value[3] == name[3] && value[4] == '(';
    EnumPrefix(MapChars(value, Upper));
  }

  lemma {:induction false} SetInAnyCase(name: string, labels: seq<string>)
    requires labels != [] && |name| == 3 && (name[0] == 'S' || name[0] == 's') && (name[1] == 'E' || name[1] == 'e')
    requires name[2] == 'T' || name[2] == 't'
    ensures MySQLNativeType(name + "(" + Arguments(labels) + ")") == Native(NativeSet, "set", labels)
  {
    SetKind(name, Arguments(labels));
    ReadsAs(NativeSet, name, "set", labels);
  }

  lemma {:induction false} SetKind(name: string, body: string)
    requires |name| == 3 && (name[0] == 'S' || name[0] == 's') && (name[1] == 'E' || name[1] == 'e')
    requires name[2] == 'T' || name[2] == 't'
    ensures KindOf(MapChars(name + "(" + body + ")", Upper)) == Some(NativeSet) && MapChars(name, Lower) == "set"
  {
    var value := name + "(" + body + ")";
    assert value[0] == name[0] && value[1] == name[1] && value[2] == name[2] && value[3] == '(';
    SetPrefix(MapChars(value, Upper));
  }

  /** White space around a declaration does not matter. */
  lemma {:induction false} SpaceAround(c: char, value: string)
    requires c == ' ' || c == '\t' || c == '\n' || c == '\U{B}' || c == '\U{C}' || c == '\r'
    ensures MySQLNativeType([c] + value) == MySQLNativeType(value) == MySQLNativeType(value + [c])
  {
    TrimsStart(c, value);
    TrimsEnd(c, value);
  }

  lemma {:induction false} TrimsStart(c: char, value: string)
    requires IsSpace(c)
    ensures TrimSpace([c] + value) == TrimSpace(value)
  {
    assert ([c] + value)[1..] == value;
  }

  lemma {:induction false} TrimsEnd(c: char, value: string)
    requires IsSpace(c)
    ensures TrimSpace(value + [c]) == TrimSpace(value)
  {
    if value == [] {
      assert (value + [c])[1..] == [];
    } else if IsSpace(value[0]) {
      assert (value + [c])[1..] == value[1..] + [c];
      TrimsEnd(c, value[1..]);
    } else {
      assert (value + [c])[..|value|] == value;
    }
  }
}
