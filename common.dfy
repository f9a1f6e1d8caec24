/** Shared vocabulary: optional values and the identity of a DOM node. */
module Common {

  /** A value that may be missing: a DOM lookup that found nothing, a JSON field that is absent or null. */
  datatype Option<+T> = None | Some(value: T)

  /** The identity of a DOM node; the structure around it is modelled where it matters. */
  type NodeId = nat
}
