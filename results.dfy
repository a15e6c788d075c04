/** The optional and fallible results the modelled code returns where Rust
    uses `Option` and `Result`. */
module Results {
  datatype Option<T> = None | Some(value: T)

  datatype Result<T, E> = Ok(value: T) | Err(error: E)
}
