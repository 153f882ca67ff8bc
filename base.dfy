/** Values shared by every part of the model. */
module Base {

  /** A value that may be missing: JavaScript's `null` or a failed lookup. */
  datatype Option<+T> = None | Some(value: T)

  /** A JavaScript value as the sanitisers see it: a string, or anything else
      (a number, `null`, an object) that `typeof v !== 'string'` rejects. */
  datatype JsValue = JsString(s: string) | JsOther
}
