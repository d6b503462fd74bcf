/** Outcomes of operations that Python would end with an exception. */
module Results {

  /** The exceptions the modelled code can raise. */
  datatype Error =
    | ValueError   // int(field, 16) rejected a colour field
    | ResizeError  // cv2.resize was handed a frame with no pixels

  datatype Option<T> = None | Some(value: T)

  datatype Result<T> = Ok(value: T) | Err(error: Error)
}
