/**
 The pieces of the Go runtime and standard library that the pipeline's
 decision logic depends on: the nil-able `error` value, `strings.Index`
 (and `strings.Contains`, which Go defines through it), `strings.Join`,
 and path joining.
 */
module GoLib {

  /** Go's `error` interface value: `nil`, or an error carrying a message. */
  datatype GoError = Nil | Error(msg: string)

  datatype Option<+T> = None | Some(value: T)

  /** `sub` occurs in `s` starting at position `i`. */
  ghost predicate OccursAt(s: string, sub: string, i: int)
  {
    0 <= i && i + |sub| <= |s| && s[i..i + |sub|] == sub
  }

  /** `strings.HasPrefix`. */
  predicate HasPrefix(s: string, prefix: string)
  {
    |prefix| <= |s| && s[..|prefix|] == prefix
  }

  /** `strings.Index`: the first position at which `sub` occurs in `s`,
      with Go's -1 written as `None`. The position counts characters where
      Go counts bytes; the two differ on non-ASCII text, but whether there
      is an occurrence at all does not. */
  function IndexOf(s: string, sub: string): (r: Option<nat>)
    ensures r.Some? ==> OccursAt(s, sub, r.value)
    ensures r.Some? ==> forall i :: 0 <= i < r.value ==> !OccursAt(s, sub, i)
    ensures r.None? ==> forall i :: !OccursAt(s, sub, i)
    decreases |s|
  {
    if HasPrefix(s, sub) then
      assert s[0..|sub|] == s[..|sub|];
      Some(0)
    else if |s| == 0 then
      None
    else
      var rest := IndexOf(s[1..], sub);
      ShiftOccurrence(s, sub);
      match rest
      case Some(i) => Some(i + 1)
      case None => None
  }

  /** An occurrence in `s` at a positive position is an occurrence in `s[1..]`
      one position earlier. */
  lemma ShiftOccurrence(s: string, sub: string)
    requires |s| > 0
    ensures forall i :: 1 <= i ==> (OccursAt(s, sub, i) <==> OccursAt(s[1..], sub, i - 1))
  {
  }

  /** `strings.Contains`, which Go implements as `Index(s, sub) >= 0`. */
  predicate Contains(s: string, sub: string)
  {
    IndexOf(s, sub).Some?
  }

  /** `strings.Join`. */
  function Join(elems: seq<string>, sep: string): string
    decreases |elems|
  {
    if |elems| == 0 then ""
    else if |elems| == 1 then elems[0]
    else elems[0] + sep + Join(elems[1..], sep)
  }

  /** `filepath.Join` / `path.Join` of a directory and a file name, without
      the lexical clean-up Go applies to the result. */
  function JoinPath(dir: string, name: string): string
  {
    dir + "/" + name
  }
}
