/**
  Option and Result values shared by every module of the model.
  `None` stands for JavaScript's `null`/`undefined`; `Err` for a thrown error.
*/
module Results {

  datatype Option<+T> = None | Some(value: T)

  datatype Result<+T, +E> = Ok(value: T) | Err(error: E)
}
