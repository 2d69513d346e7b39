/** Java-level vocabulary shared by every component: a nullable reference is an
    Option, and a call either returns a value or throws one of the exceptions the
    code raises or catches. */
module JavaLang {

  /** A Java reference that may be null. */
  datatype Option<+T> = None | Some(value: T)

  /** The exceptions the modelled code throws, catches or lets escape. */
  datatype Exception =
    | ApiException(message: string)
    | IOException(message: string)
    | SecretRetrievalException
    | NullPointerException
    | StringIndexOutOfBoundsException
    | NoSuchElementException(message: string)
    | IllegalArgumentException(message: string)
    | JsonSyntaxException
  {
    /** Checked exceptions are the ones a `catch (ApiException | IOException e)` clause intercepts. */
    predicate IsApiOrIO() {
      ApiException? || IOException?
    }
  }

  /** Outcome of a Java call: it returned a value or threw. */
  datatype Try<+T> = Ok(value: T) | Threw(exception: Exception)

  /** A slice of a suffix is a slice of the whole: the index arithmetic behind
      `substring` of a `substring` and behind consecutive sublists. */
  lemma SliceOfSuffix<T>(s: seq<T>, d: nat, lo: nat, hi: nat)
    requires d <= |s| && lo <= hi <= |s| - d
    ensures s[d..][lo..hi] == s[d + lo..d + hi]
  {
  }
}
