/** Python's list indexing, as both games rely on it. */
module PyLists {
  import opened Options

  /** Python's index into a list of length `n`: negative indices count from the end. */
  function PyIndex(i: int, n: int): (r: Option<int>)
    ensures r.Some? <==> -n <= i < n
    ensures r.Some? ==> 0 <= r.value < n && (r.value == i || r.value == i + n)
  {
    if 0 <= i < n then Some(i) else if -n <= i < 0 then Some(i + n) else None
  }
}
