/**
 * Information-flow labels. A labelled value carries a secrecy label (a set of
 * tags; secrecy only grows, by union) and an integrity label (a set of tags;
 * integrity only shrinks, by intersection), as the dynamic labels of the
 * secure structures the text-input engine stores its lines in.
 */
module Labels {
  /** A policy tag. */
  type Tag = string

  datatype Secure<T> = Secure(payload: T, secrecy: set<Tag>, integrity: set<Tag>)

  /** A value made from literals, labelled with the empty secrecy and integrity labels. */
  function Public<T>(x: T): Secure<T>
  {
    Secure(x, {}, {})
  }
}
