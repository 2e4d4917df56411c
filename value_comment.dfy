/** The value/comment cell stored under a key, and its one-line text form. */
module ValueComments {
  import opened Text

  /** A stored cell. The source's struct constructor only copies its two arguments into the fields. */
  datatype ValueCommentPair = ValueCommentPair(value: string, comment: string)

  /** The comment delimiter of the INI and argv grammars (`ESCAPE_COMMENT`). */
  const Delimiter: char := ';'

  /** A value is written between double quotes exactly when it holds the comment delimiter. */
  function QuoteIfNeeded(v: string): (r: string)
    ensures (r == v) <==> Delimiter !in v
    ensures r != v ==> r == ['"'] + v + ['"']
  {
    if Delimiter in v then ['"'] + v + ['"'] else v
  }

  /** A comment is written as ` ;comment`, and an empty comment is not written at all. */
  function CommentSuffix(c: string): (r: string)
    ensures (r == []) <==> c == []
    ensures r != [] ==> r == [' ', Delimiter] + c
  {
    if c == [] then [] else [' ', Delimiter] + c
  }

  /** `ValueCommentPair.ToString()`. */
  function PairToString(p: ValueCommentPair): (r: string)
    // quoted exactly when the value holds the delimiter
    ensures Delimiter in p.value ==> StartsWith(r, ['"'] + p.value + ['"'])
    ensures Delimiter !in p.value ==> StartsWith(r, p.value)
    // the comment is appended exactly when it is non-empty
    ensures p.comment != [] ==> |r| >= |p.comment| + 2 && r[|r| - |p.comment| - 2..] == [' ', Delimiter] + p.comment
    ensures |r| == |p.value| + (if Delimiter in p.value then 2 else 0) + (if p.comment == [] then 0 else |p.comment| + 2)
    // a plain value without comment is written unchanged
    ensures Delimiter !in p.value && p.comment == [] ==> r == p.value
  {
    var q := QuoteIfNeeded(p.value);
    assert (q + CommentSuffix(p.comment))[..|q|] == q;
    q + CommentSuffix(p.comment)
  }
}
