/** collection/list/err.go: the list package's own index-out-of-bounds
    error value (an exact twin of collection/errs/err.go). */
module CollectionListErr {

  import opened Wrappers
  import CollectionErrs

  datatype IndexOutOfBoundsException = IndexOutOfBoundsException(str: string)

  /** Error(): the bare prefix when the detail is empty, otherwise prefix, comma, detail. */
  function Error(e: IndexOutOfBoundsException): (msg: string)
    ensures |e.str| == 0 ==> msg == CollectionErrs.Prefix
    ensures |e.str| != 0 ==> msg == CollectionErrs.Prefix + "," + e.str
    ensures CollectionErrs.DetailOf(msg) == Some(e.str)
  {
    var str := "index out of bound";
    if |e.str| != 0 then
      assert (str + "," + e.str)[..|CollectionErrs.Prefix| + 1] == CollectionErrs.Prefix + ",";
      assert (str + "," + e.str)[|CollectionErrs.Prefix| + 1..] == e.str;
      str + "," + e.str
    else
      str
  }

  /** NewIndexOutOfBoundsExceptionDefault: an error with no detail. */
  function NewIndexOutOfBoundsExceptionDefault(): (e: IndexOutOfBoundsException)
    ensures Error(e) == CollectionErrs.Prefix
  {
    IndexOutOfBoundsException("")
  }

  /** NewIndexOutOfBoundsException(s): the detail is kept verbatim and reads back from the text. */
  function NewIndexOutOfBoundsException(s: string): (e: IndexOutOfBoundsException)
    ensures CollectionErrs.DetailOf(Error(e)) == Some(s)
  {
    IndexOutOfBoundsException(s)
  }

  /** The two packages' error values render identical text for the same detail. */
  lemma SameTextAsErrs(s: string)
    ensures Error(IndexOutOfBoundsException(s)) == CollectionErrs.Error(CollectionErrs.IndexOutOfBoundsError(s))
  {
  }
}
