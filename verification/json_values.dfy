/** JSON as far as the services look into it. */
module JsonValues {

  /** A JSON value; only null and strings are told apart from the others. */
  datatype Json = JNull | JText(text: string) | JOther(text: string)

  /** A JSON object. */
  type Object = map<string, Json>

  /** `object.get(key)` */
  function Get(o: Object, k: string): Json {
    if k in o then o[k] else JNull
  }
}
