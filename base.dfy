/** Failure-carrying wrappers and the exceptions the configuration store can raise. */
module Base {

  datatype Option<+T> = None | Some(value: T)

  datatype Result<+T> = Success(value: T) | Failure(error: Error)

  /**
   * The state an operation leaves behind together with the exception, if any, that stopped it.
   * The source has no transactions: a parser that throws half way keeps what it already stored.
   */
  datatype Outcome<+T> = Outcome(state: T, error: Option<Error>)

  /** The .NET exceptions the modelled code throws, one constructor per kind. */
  datatype Error =
    | KeyNotFound        // KeyNotFoundException: missing key or missing section
    | DuplicateKey       // ArgumentException from Dictionary.Add
    | InvalidSection     // Exception("the section is not valid") from the INI header matcher
    | MissingAttribute(attribute: string)  // Exception from the XML reader: required attribute absent
    | InvalidFormat      // FormatException from string.Format
    | InvalidOperation   // InvalidOperationException: argv sources cannot reload or save
    | FileNotDeclared    // FileNotFoundException: SaveFileName is empty
    | IndexOutOfRange    // IndexOutOfRangeException: negative argv start index

  /** Taking one more element of a sequence appends that element. */
  lemma TakeOneMore<T>(s: seq<T>, n: nat)
    requires n < |s|
    ensures s[..n + 1] == s[..n] + [s[n]]
  {
  }

  /** A sequence is its first `n` elements followed by the rest. */
  lemma TakeDrop<T>(s: seq<T>, n: nat)
    requires n <= |s|
    ensures s[..n] + s[n..] == s
  {
  }

  /** The first `n` elements of the first `n + 1` are the first `n`. */
  lemma PrefixOfTake<T>(s: seq<T>, n: nat)
    requires n < |s|
    ensures s[..n + 1][..n] == s[..n] && s[..n + 1][n] == s[n]
  {
  }
}
