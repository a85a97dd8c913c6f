/**
 Texts that are well bracketed outside strings. Strings are quoted runs in which a backslash takes
 the next character with it; that covers every string of section 7 of RFC 8259.
 */
module JsonText {

  datatype Item = Plain(c: char) | Escaped(c: char)

  datatype Piece =
    | Char(c: char)
    | Str(items: seq<Item>)
    | Braces(inner: Text)
    | Brackets(inner: Text)

  datatype Text = Nil | Cons(head: Piece, tail: Text)

  const SPECIAL := ['"', '{', '}', '[', ']']

  predicate ItemOk(i: Item) {
    i.Plain? ==> i.c != '"' && i.c != '\\'
  }

  predicate PieceOk(p: Piece) {
    match p
    case Char(c) => c !in SPECIAL
    case Str(items) => forall k | 0 <= k < |items| :: ItemOk(items[k])
    case Braces(inner) => TextOk(inner)
    case Brackets(inner) => TextOk(inner)
  }

  predicate TextOk(t: Text) {
    t.Cons? ==> PieceOk(t.head) && TextOk(t.tail)
  }

  function RenderItem(i: Item): string {
    match i
    case Plain(c) => [c]
    case Escaped(c) => ['\\', c]
  }

  function RenderItems(items: seq<Item>): string {
    if items == [] then "" else RenderItem(items[0]) + RenderItems(items[1..])
  }

  function RenderPiece(p: Piece): string {
    match p
    case Char(c) => [c]
    case Str(items) => "\"" + RenderItems(items) + "\""
    case Braces(inner) => "{" + Render(inner) + "}"
    case Brackets(inner) => "[" + Render(inner) + "]"
  }

  function Render(t: Text): string {
    match t
    case Nil => ""
    case Cons(p, rest) => RenderPiece(p) + Render(rest)
  }

  /** A well-bracketed text. */
  ghost predicate WellBracketed(s: string) {
    exists t :: TextOk(t) && Render(t) == s
  }
}
