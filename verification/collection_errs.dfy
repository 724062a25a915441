/** collection/errs/err.go: the index-out-of-bounds error value with an
    optional detail string. */
module CollectionErrs {

  import opened Wrappers

  const Prefix: string := "index out of bound"

  datatype IndexOutOfBoundsError = IndexOutOfBoundsError(str: string)

  /** Reads the detail back out of an Error() text: the inverse of `Error`. */
  function DetailOf(msg: string): Option<string>
  {
    if msg == Prefix then Some("")
    else if |msg| > |Prefix| + 1 && msg[..|Prefix| + 1] == Prefix + "," then Some(msg[|Prefix| + 1..])
    else None
  }

  /** Error(): the bare prefix when the detail is empty, otherwise prefix, comma, detail. */
  function Error(e: IndexOutOfBoundsError): (msg: string)
    ensures |e.str| == 0 ==> msg == Prefix
    ensures |e.str| != 0 ==> msg == Prefix + "," + e.str
    ensures msg[..|Prefix|] == Prefix
    ensures DetailOf(msg) == Some(e.str)
  {
    var str := "index out of bound";
    if |e.str| != 0 then
      assert (str + "," + e.str)[..|Prefix| + 1] == Prefix + ",";
      assert (str + "," + e.str)[|Prefix| + 1..] == e.str;
      str + "," + e.str
    else
      str
  }

  /** NewIndexOutOfBoundsErrorDefault: an error with no detail. */
  function NewIndexOutOfBoundsErrorDefault(): (e: IndexOutOfBoundsError)
    ensures Error(e) == Prefix
  {
    IndexOutOfBoundsError("")
  }

  /** NewIndexOutOfBoundsError(s): the detail is kept verbatim and reads back from the text. */
  function NewIndexOutOfBoundsError(s: string): (e: IndexOutOfBoundsError)
    ensures DetailOf(Error(e)) == Some(s)
  {
    IndexOutOfBoundsError(s)
  }

  /** Two errors with the same text carry the same detail. */
  lemma ErrorInjective(a: IndexOutOfBoundsError, b: IndexOutOfBoundsError)
    requires Error(a) == Error(b)
    ensures a == b
  {
    assert DetailOf(Error(a)) == Some(a.str);
  }
}
