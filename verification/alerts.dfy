/**
 The outcome a submit handler announces through `Alert.alert(title, message?)`,
 kept as a value instead of a side effect.
 */
module Alerts {
  import opened JsText

  datatype Option<T> = None | Some(value: T)

  /** An alert with a title and, when the call passes one, a message. */
  datatype Alert = Alert(title: JsString, message: Option<JsString>)

  /** The alert both screens raise when some check failed. */
  const ValidationErrorAlert: Alert :=
    Alert("Validation Error", Some("Please fix the errors before proceeding."))
}
