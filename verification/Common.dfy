/** Result types and a text function shared by the component models. */
module Common {

  datatype Option<+T> = None | Some(value: T)

  datatype Result<+T, +E> = Success(value: T) | Failure(error: E)

  /** Truthiness of a JavaScript string that may be absent. */
  predicate Truthy(s: Option<string>) {
    s.Some? && s.value != ""
  }

  /** The text behind the last separator. */
  function AfterLast(separator: char, s: string): string {
    if s == "" || s[|s| - 1] == separator then "" else AfterLast(separator, s[..|s| - 1]) + [s[|s| - 1]]
  }

  lemma {:induction false} AfterLastIs(separator: char, stem: string, tail: string)
    requires separator !in tail
    ensures AfterLast(separator, stem + [separator] + tail) == tail
  {
    var s := stem + [separator] + tail;
    if tail != "" {
      var n := |tail| - 1;
      assert s[|s| - 1] == tail[n] && s[..|s| - 1] == stem + [separator] + tail[..n];
      AfterLastIs(separator, stem, tail[..n]);
      assert tail == tail[..n] + [tail[n]];
    } else {
      assert s[|s| - 1] == separator;
    }
  }
}
