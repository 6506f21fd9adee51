/** The scanner that cuts the JSON object out of a ReDoc page, and the JSON texts it is meant for
    (RFC 8259, sections 2 to 7). */
module SpecScanner {
  import opened Wrappers
  import opened Numbers

  // ---- JSON texts, with their white space and escapes as written

  datatype Piece = Plain(c: char) | Escape(c: char) | Unicode(hex: string)

  datatype Item = Item(before: string, value: Json, after: string)

  datatype Member = Member(before: string, name: seq<Piece>, beforeColon: string, afterColon: string,
                           value: Json, after: string)

  /** `blank` is the white space of an empty array or object. */
  datatype Json =
    | Scalar(text: string)
    | Text(pieces: seq<Piece>)
    | Array(blank: string, items: seq<Item>)
    | Object(blank: string, members: seq<Member>)

  predicate IsBlank(s: string) {
    forall i | 0 <= i < |s| :: s[i] in {' ', '\t', '\n', '\r'}
  }

  function SkipDigits(s: string): (t: string)
    ensures |t| <= |s|
  {
    if s != "" && IsDigit(s[0]) then SkipDigits(s[1..]) else s
  }

  /** digit, digits */
  predicate StartsWithDigit(s: string) {
    s != "" && IsDigit(s[0])
  }

  /** [ minus ] int [ frac ] [ exp ] */
  predicate IsNumber(s: string) {
    var u := if s != "" && s[0] == '-' then s[1..] else s;
    StartsWithDigit(u) &&
    var v := if u[0] == '0' then u[1..] else SkipDigits(u);
    if v != "" && v[0] == '.' then StartsWithDigit(v[1..]) && IsExponent(SkipDigits(v[1..])) else IsExponent(v)
  }

  /** nothing, or e [ sign ] digits */
  predicate IsExponent(s: string) {
    s == "" ||
    ((s[0] == 'e' || s[0] == 'E') &&
     var t := if |s| > 1 && (s[1] == '+' || s[1] == '-') then s[2..] else s[1..];
     StartsWithDigit(t) && SkipDigits(t) == "")
  }

  predicate IsPiece(p: Piece) {
    match p
    case Plain(c) => c >= ' ' && c != '"' && c != '\\'
    case Escape(c) => c in {'"', '\\', '/', 'b', 'f', 'n', 'r', 't'}
    case Unicode(hex) =>
      |hex| == 4 && forall i | 0 <= i < 4 :: IsDigit(hex[i]) || 'a' <= hex[i] <= 'f' || 'A' <= hex[i] <= 'F'
  }

  predicate ArePieces(ps: seq<Piece>) {
    forall i | 0 <= i < |ps| :: IsPiece(ps[i])
  }

  predicate IsJson(v: Json) {
    match v
    case Scalar(text) => text in {"true", "false", "null"} || IsNumber(text)
    case Text(pieces) => ArePieces(pieces)
    case Array(blank, items) =>
      IsBlank(blank) && forall i | 0 <= i < |items| ::
        IsBlank(items[i].before) && IsJson(items[i].value) && IsBlank(items[i].after)
    case Object(blank, members) =>
      IsBlank(blank) && forall i | 0 <= i < |members| ::
        && IsBlank(members[i].before) && ArePieces(members[i].name) && IsBlank(members[i].beforeColon)
        && IsBlank(members[i].afterColon) && IsJson(members[i].value) && IsBlank(members[i].after)
  }

  function PieceText(p: Piece): string {
    match p
    case Plain(c) => [c]
    case Escape(c) => ['\\', c]
    case Unicode(hex) => "\\u" + hex
  }

  function PiecesText(ps: seq<Piece>): string {
    if ps == [] then "" else PieceText(ps[0]) + PiecesText(ps[1..])
  }

  function Quoted(ps: seq<Piece>): string {
    ['"'] + PiecesText(ps) + ['"']
  }

  function JsonText(v: Json): string
    decreases v, 1, 0
  {
    match v
    case Scalar(text) => text
    case Text(pieces) => Quoted(pieces)
    case Array(blank, items) => "[" + (if items == [] then blank else ItemsText(v, items)) + "]"
    case Object(blank, members) => "{" + Inside(v) + "}"
  }

  /** What stands between the braces of an object. */
  function Inside(v: Json): string
    requires v.Object?
    decreases v, 0, |v.members| + 1
  {
    if v.members == [] then v.blank else MembersText(v, v.members)
  }

  /** `v` is the enclosing value, for termination. */
  function ItemsText(ghost v: Json, items: seq<Item>): string
    requires forall i | 0 <= i < |items| :: items[i].value < v
    decreases v, 0, |items|
  {
    if items == [] then ""
    else
      items[0].before + JsonText(items[0].value) + items[0].after +
      (if |items| > 1 then "," else "") + ItemsText(v, items[1..])
  }

  function MembersText(ghost v: Json, members: seq<Member>): string
    requires forall i | 0 <= i < |members| :: members[i].value < v
    decreases v, 0, |members|
  {
    if members == [] then ""
    else
      var m := members[0];
      m.before + Quoted(m.name) + m.beforeColon + ":" + m.afterColon + JsonText(m.value) + m.after +
      (if |members| > 1 then "," else "") + MembersText(v, members[1..])
  }

  // ---- the scanner

  datatype State = State(depth: int, inStr: bool, esc: bool)

  /** One turn of the loop. */
  function Step(st: State, c: char): State {
    if st.inStr then
      if st.esc then st.(esc := false)
      else if c == '\\' then st.(esc := true)
      else if c == '"' then st.(inStr := false)
      else st
    else if c == '"' then st.(inStr := true)
    else if c == '{' then st.(depth := st.depth + 1)
    else if c == '}' then st.(depth := st.depth - 1)
    else st
  }

  /** The turn that breaks out of the loop. */
  predicate Stops(st: State, c: char) {
    !st.inStr && c == '}' && st.depth == 1
  }

  /** Where the loop ends, from place `i`. */
  function ScanFrom(html: string, i: nat, st: State): (end: nat)
    requires i <= |html|
    ensures i <= end <= |html|
    decreases |html| - i
  {
    if i == |html| then i
    else if Stops(st, html[i]) then i
    else ScanFrom(html, i + 1, Step(st, html[i]))
  }

  const OUTSIDE := State(0, false, false)

  /** html.index("{", from) */
  function OpenFrom(html: string, from: nat): (start: nat)
    requires from <= |html|
    ensures from <= start <= |html|
    ensures start < |html| ==> html[start] == '{'
    ensures forall i | from <= i < start :: html[i] != '{'
    decreases |html| - from
  {
    if from == |html| || html[from] == '{' then from else OpenFrom(html, from + 1)
  }

  /** The slice handed to the JSON reader; `from` is where the text after `__redoc_state =` begins.
      None is the exception raised when there is no brace. */
  method SpecSlice(html: string, from: nat) returns (slice: Option<string>)
    requires from <= |html|
    ensures var start := OpenFrom(html, from);
            if start == |html| then slice == None
            else
              var end := ScanFrom(html, start, OUTSIDE);
              slice == Some(if end < |html| then html[start..end + 1] else html[start..])
  {
    var start := OpenFrom(html, from);
    if start == |html| {
      return None;
    }
    var depth, inStr, esc, i := 0, false, false, start;
    while i < |html|
      invariant start <= i <= |html|
      invariant ScanFrom(html, start, OUTSIDE) == ScanFrom(html, i, State(depth, inStr, esc))
    {
      var c := html[i];
      if inStr {
        if esc {
          esc := false;
        } else if c == '\\' {
          esc := true;
        } else if c == '"' {
          inStr := false;
        }
      } else if c == '"' {
        inStr := true;
      } else if c == '{' {
        depth := depth + 1;
      } else if c == '}' {
        depth := depth - 1;
        if depth == 0 {
          break;
        }
      }
      i := i + 1;
    }
    return Some(if i < |html| then html[start..i + 1] else html[start..]);
  }

  // ---- scanning a stretch of text

  /** The state after `s`, unless the loop stops inside it. */
  function Over(st: State, s: string): Option<State>
    decreases |s|
  {
    if s == "" then Some(st)
    else if Stops(st, s[0]) then None
    else Over(Step(st, s[0]), s[1..])
  }

  lemma {:induction false} OverConcat(st: State, a: string, b: string)
    requires Over(st, a).Some?
    ensures Over(st, a + b) == Over(Over(st, a).value, b)
    decreases |a|
  {
    if a == "" {
      assert a + b == b;
    } else {
      assert (a + b)[1..] == a[1..] + b;
      OverConcat(Step(st, a[0]), a[1..], b);
    }
  }

  lemma {:induction false} ScanOver(html: string, i: nat, s: string, st: State)
    requires i + |s| <= |html| && html[i..i + |s|] == s && Over(st, s).Some?
    ensures ScanFrom(html, i, st) == ScanFrom(html, i + |s|, Over(st, s).value)
    decreases |s|
  {
    if s != "" {
      assert html[i] == s[0];
      assert html[i + 1..i + 1 + |s[1..]|] == s[1..];
      ScanOver(html, i + 1, s[1..], Step(st, s[0]));
    }
  }

  /** Nothing in `s` that the scanner looks at outside strings. */
  predicate Inert(s: string) {
    forall i | 0 <= i < |s| :: s[i] != '"' && s[i] != '{' && s[i] != '}'
  }

  lemma {:induction false} OverInert(st: State, s: string)
    requires !st.inStr && Inert(s)
    ensures Over(st, s) == Some(st)
    decreases |s|
  {
    if s != "" {
      OverInert(st, s[1..]);
    }
  }

  lemma {:induction false} DigitsThen(s: string)
    requires Inert(SkipDigits(s))
    ensures Inert(s)
  {
    if s != "" && IsDigit(s[0]) {
      DigitsThen(s[1..]);
    }
  }

  lemma ExponentInert(s: string)
    requires IsExponent(s)
    ensures Inert(s)
  {
    if s != "" {
      var signed := |s| > 1 && (s[1] == '+' || s[1] == '-');
      var t := if signed then s[2..] else s[1..];
      DigitsThen(t);
      assert s == s[..|s| - |t|] + t;
    }
  }

  lemma NumberInert(s: string)
    requires IsNumber(s)
    ensures Inert(s)
  {
    var u := if s != "" && s[0] == '-' then s[1..] else s;
    var v := if u[0] == '0' then u[1..] else SkipDigits(u);
    if v != "" && v[0] == '.' {
      ExponentInert(SkipDigits(v[1..]));
      DigitsThen(v[1..]);
      assert v == [v[0]] + v[1..];
    } else {
      ExponentInert(v);
    }
    if u[0] == '0' {
      assert u == [u[0]] + v;
    } else {
      DigitsThen(u);
    }
    assert s == (if s[0] == '-' then ['-'] else []) + u;
  }

  lemma OverPiece(d: int, p: Piece)
    requires IsPiece(p)
    ensures Over(State(d, true, false), PieceText(p)) == Some(State(d, true, false))
  {
    var st := State(d, true, false);
    match p
    case Plain(c) => assert [c][1..] == "";
    case Escape(c) => assert ['\\', c][1..] == [c] && [c][1..] == "";
    case Unicode(hex) =>
      OverCalm(d, hex);
      assert ("\\u" + hex)[1..] == ['u'] + hex && (['u'] + hex)[1..] == hex;
      assert Over(State(d, true, true), ['u'] + hex) == Over(st, hex);
  }

  lemma {:induction false} OverCalm(d: int, s: string)
    requires forall i | 0 <= i < |s| :: s[i] != '"' && s[i] != '\\'
    ensures Over(State(d, true, false), s) == Some(State(d, true, false))
    decreases |s|
  {
    if s != "" {
      OverCalm(d, s[1..]);
    }
  }

  lemma {:induction false} OverPieces(d: int, ps: seq<Piece>)
    requires ArePieces(ps)
    ensures Over(State(d, true, false), PiecesText(ps)) == Some(State(d, true, false))
    decreases |ps|
  {
    if ps != [] {
      OverPiece(d, ps[0]);
      OverPieces(d, ps[1..]);
      OverConcat(State(d, true, false), PieceText(ps[0]), PiecesText(ps[1..]));
    }
  }

  /** A string token, braces and escaped quotes and all, leaves the scanner where it was. */
  lemma OverQuoted(d: int, ps: seq<Piece>)
    requires ArePieces(ps)
    ensures Over(State(d, false, false), Quoted(ps)) == Some(State(d, false, false))
  {
    var body := PiecesText(ps);
    OverPieces(d, ps);
    OverConcat(State(d, true, false), body, ['"']);
    assert ['"'][1..] == "";
    assert Over(State(d, true, false), body + ['"']) == Some(State(d, false, false));
    assert Quoted(ps) == ['"'] + (body + ['"']);
    assert Quoted(ps)[1..] == body + ['"'];
  }

  /** Texts in a row, each leaving the scanner where it was. */
  lemma OverBoth(st: State, a: string, b: string)
    requires Over(st, a) == Some(st) && Over(st, b) == Some(st)
    ensures Over(st, a + b) == Some(st)
  {
    OverConcat(st, a, b);
  }

  lemma BlankInert(s: string)
    requires IsBlank(s)
    ensures Inert(s)
  {}

  /** Any JSON value, inside at least one open brace, leaves the scanner where it was. */
  lemma {:induction false} OverJson(d: int, v: Json)
    requires d >= 1 && IsJson(v)
    ensures Over(State(d, false, false), JsonText(v)) == Some(State(d, false, false))
    decreases v, 1, 0
  {
    var st := State(d, false, false);
    match v
    case Scalar(text) =>
      if IsNumber(text) {
        NumberInert(text);
      }
      OverInert(st, text);
    case Text(pieces) =>
      OverQuoted(d, pieces);
    case Array(blank, items) =>
      var body := if items == [] then blank else ItemsText(v, items);
      if items == [] {
        BlankInert(blank);
        OverInert(st, blank);
      } else {
        OverItems(d, v, items);
      }
      OverInert(st, "[");
      OverInert(st, "]");
      OverBoth(st, "[", body);
      OverBoth(st, "[" + body, "]");
    case Object(blank, members) =>
      var body := Inside(v);
      var deeper := State(d + 1, false, false);
      OverInside(d + 1, v);
      OverConcat(deeper, body, "}");
      assert "}"[1..] == "";
      assert JsonText(v) == ['{'] + (body + "}");
      assert JsonText(v)[1..] == body + "}";
  }

  lemma {:induction false} OverInside(d: int, v: Json)
    requires d >= 1 && v.Object? && IsJson(v)
    ensures Over(State(d, false, false), Inside(v)) == Some(State(d, false, false))
    decreases v, 0, |v.members| + 1
  {
    if v.members == [] {
      BlankInert(v.blank);
      OverInert(State(d, false, false), v.blank);
    } else {
      OverMembers(d, v, v.members);
    }
  }

  lemma {:induction false} OverItems(d: int, v: Json, items: seq<Item>)
    requires d >= 1
    requires forall i | 0 <= i < |items| :: items[i].value < v
    requires forall i | 0 <= i < |items| ::
               IsBlank(items[i].before) && IsJson(items[i].value) && IsBlank(items[i].after)
    ensures Over(State(d, false, false), ItemsText(v, items)) == Some(State(d, false, false))
    decreases v, 0, |items|
  {
    if items != [] {
      var st, it := State(d, false, false), items[0];
      var comma := if |items| > 1 then "," else "";
      BlankInert(it.before);
      BlankInert(it.after);
      OverInert(st, it.before);
      OverInert(st, it.after);
      OverInert(st, comma);
      OverJson(d, it.value);
      OverItems(d, v, items[1..]);
      var text := JsonText(it.value);
      OverBoth(st, it.before, text);
      OverBoth(st, it.before + text, it.after);
      OverBoth(st, it.before + text + it.after, comma);
      OverBoth(st, it.before + text + it.after + comma, ItemsText(v, items[1..]));
    }
  }

  lemma {:induction false} OverMembers(d: int, v: Json, members: seq<Member>)
    requires d >= 1
    requires forall i | 0 <= i < |members| :: members[i].value < v
    requires forall i | 0 <= i < |members| ::
               && IsBlank(members[i].before) && ArePieces(members[i].name) && IsBlank(members[i].beforeColon)
               && IsBlank(members[i].afterColon) && IsJson(members[i].value) && IsBlank(members[i].after)
    ensures Over(State(d, false, false), MembersText(v, members)) == Some(State(d, false, false))
    decreases v, 0, |members|
  {
    if members != [] {
      var st, m := State(d, false, false), members[0];
      var comma := if |members| > 1 then "," else "";
      BlankInert(m.before);
      BlankInert(m.beforeColon);
      BlankInert(m.afterColon);
      BlankInert(m.after);
      OverInert(st, m.before);
      OverInert(st, m.beforeColon);
      OverInert(st, ":");
      OverInert(st, m.afterColon);
      OverInert(st, m.after);
      OverInert(st, comma);
      OverQuoted(d, m.name);
      OverJson(d, m.value);
      OverMembers(d, v, members[1..]);
      var name, text := Quoted(m.name), JsonText(m.value);
      OverBoth(st, m.before, name);
      OverBoth(st, m.before + name, m.beforeColon);
      OverBoth(st, m.before + name + m.beforeColon, ":");
      OverBoth(st, m.before + name + m.beforeColon + ":", m.afterColon);
      OverBoth(st, m.before + name + m.beforeColon + ":" + m.afterColon, text);
      OverBoth(st, m.before + name + m.beforeColon + ":" + m.afterColon + text, m.after);
      OverBoth(st, m.before + name + m.beforeColon + ":" + m.afterColon + text + m.after, comma);
      var head := m.before + name + m.beforeColon + ":" + m.afterColon + text + m.after + comma;
      OverBoth(st, head, MembersText(v, members[1..]));
    }
  }

  // ---- the result

  /** From its opening brace, the scan of a JSON object followed by anything stops at its closing one. */
  lemma ScanStopsAtClose(before: string, v: Json, after: string)
    requires v.Object? && IsJson(v)
    ensures ScanFrom(before + JsonText(v) + after, |before|, OUTSIDE) == |before| + |JsonText(v)| - 1
  {
    var text, body := JsonText(v), Inside(v);
    var html, open := before + text + after, State(1, false, false);
    assert text == ['{'] + body + ['}'];
    assert html[|before|] == '{';
    OverInside(1, v);
    assert html[|before| + 1..|before| + 1 + |body|] == body;
    ScanOver(html, |before| + 1, body, open);
    assert html[|before| + 1 + |body|] == '}';
  }

  /** Whatever precedes the object without a brace, and whatever follows it, the slice is its text. */
  lemma SliceIsObject(html: string, from: nat, gap: string, v: Json, after: string)
    requires from <= |html| && html[from..] == gap + JsonText(v) + after
    requires v.Object? && IsJson(v) && forall i | 0 <= i < |gap| :: gap[i] != '{'
    ensures var start := OpenFrom(html, from);
            var end := ScanFrom(html, start, OUTSIDE);
            start < |html| && end < |html| && html[start..end + 1] == JsonText(v)
  {
    hide JsonText, IsJson;
    var before, text := html[..from] + gap, JsonText(v);
    assert html == html[..from] + html[from..];
    assert html == before + text + after;
    ScanStopsAtClose(before, v, after);
    StartsWithBrace(v);
    OpensAfter(html, from, gap, text + after);
    assert html[|before|..|before| + |text|] == text;
  }

  lemma StartsWithBrace(v: Json)
    requires v.Object?
    ensures JsonText(v) != "" && JsonText(v)[0] == '{'
  {}

  lemma OpensAfter(html: string, from: nat, gap: string, rest: string)
    requires from <= |html| && html[from..] == gap + rest && rest != "" && rest[0] == '{'
    requires forall i | 0 <= i < |gap| :: gap[i] != '{'
    ensures OpenFrom(html, from) == from + |gap|
  {
    hide OpenFrom;
    var start := OpenFrom(html, from);
    assert html[from + |gap|] == html[from..][|gap|];
    assert forall i | from <= i < from + |gap| :: html[i] == html[from..][i - from];
  }
}
