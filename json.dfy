/** The JSON values exchanged between the UI client and the API. */
module JsonValues {

  /** A JSON string or integer: the only kinds an update body carries. */
  datatype Json = JString(s: string) | JInt(n: int)
}
