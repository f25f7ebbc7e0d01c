// The JSON grammar of RFC 8259 (sections 2 to 7) as concrete syntax.
module Json {
  /** White space of section 2. */
  predicate Blank(s: string) {
    forall i :: 0 <= i < |s| ==> s[i] == ' ' || s[i] == '\t' || s[i] == '\n' || s[i] == '\r'
  }

  predicate Hex(c: char) {
    '0' <= c <= '9' || 'a' <= c <= 'f' || 'A' <= c <= 'F'
  }

  /** One character of a string: unescaped, escaped, or given by its code. */
  datatype StringPart = Plain(c: char) | Escape(c: char) | Code(a: char, b: char, c: char, d: char) {
    predicate Valid() {
      match this
      case Plain(c) => c != '"' && c != '\\' && ' ' <= c
      case Escape(c) => c in {'"', '\\', '/', 'b', 'f', 'n', 'r', 't'}
      case Code(a, b, c, d) => Hex(a) && Hex(b) && Hex(c) && Hex(d)
    }

    function Text(): string {
      match this
      case Plain(c) => [c]
      case Escape(c) => ['\\', c]
      case Code(a, b, c, d) => ['\\', 'u', a, b, c, d]
    }
  }

  function PartsText(parts: seq<StringPart>): string {
    if parts == [] then "" else parts[0].Text() + PartsText(parts[1..])
  }

  function StringText(parts: seq<StringPart>): string {
    "\"" + PartsText(parts) + "\""
  }

  /** The characters a number may use; the grammar of section 6 is a subset of these words. */
  predicate NumberText(s: string) {
    s != "" && forall i :: 0 <= i < |s| ==> '0' <= s[i] <= '9' || s[i] in {'-', '+', '.', 'e', 'E'}
  }

  /** A value with the white space inside it; elements and members carry the white space around them. */
  datatype Value =
    | Word(text: string)
    | Number(text: string)
    | Text(parts: seq<StringPart>)
    | Array(blank: string, elements: Elements)
    | Object(blank: string, members: Members)

  datatype Elements = NoElement | Element(before: string, value: Value, after: string, rest: Elements)

  datatype Members =
    | NoMember
    | Member(before: string, key: seq<StringPart>, colonBefore: string, colonAfter: string, value: Value, after: string,
             rest: Members)

  predicate Valid(v: Value) {
    match v
    case Word(t) => t == "true" || t == "false" || t == "null"
    case Number(t) => NumberText(t)
    case Text(parts) => forall i :: 0 <= i < |parts| ==> parts[i].Valid()
    case Array(blank, elements) => Blank(blank) && ValidElements(elements)
    case Object(blank, members) => Blank(blank) && ValidMembers(members)
  }

  predicate ValidElements(es: Elements) {
    es.Element? ==> Blank(es.before) && Valid(es.value) && Blank(es.after) && ValidElements(es.rest)
  }

  predicate ValidMembers(ms: Members) {
    ms.Member? ==>
      && Blank(ms.before) && (forall i :: 0 <= i < |ms.key| ==> ms.key[i].Valid()) && Blank(ms.colonBefore)
      && Blank(ms.colonAfter) && Valid(ms.value) && Blank(ms.after) && ValidMembers(ms.rest)
  }

  /** The text of a value. White space of an empty array or object is `blank`. */
  function Render(v: Value): string {
    match v
    case Word(t) => t
    case Number(t) => t
    case Text(parts) => StringText(parts)
    case Array(blank, elements) => "[" + (if elements.NoElement? then blank else RenderElements(elements)) + "]"
    case Object(blank, members) => "{" + (if members.NoMember? then blank else RenderMembers(members)) + "}"
  }

  function RenderElements(es: Elements): string {
    match es
    case NoElement => ""
    case Element(before, value, after, rest) =>
      before + Render(value) + after + (if rest.NoElement? then "" else "," + RenderElements(rest))
  }

  function RenderMembers(ms: Members): string {
    match ms
    case NoMember => ""
    case Member(before, key, colonBefore, colonAfter, value, after, rest) =>
      before + StringText(key) + colonBefore + ":" + colonAfter + Render(value) + after
      + (if rest.NoMember? then "" else "," + RenderMembers(rest))
  }
}
