/** Failure-carrying results shared by the tokenizer, the parser and the
    interpreter. Every error of the modelled program is a plain message
    string, as the `Result<_, String>` returns of src/tokenizer.rs, src/parser.rs
    and src/interpreter.rs are. */
module Results {

  /** `Option<u8>` of the parser's `peek`, and the interpreter's running
      "last value" of a sequence. */
  datatype Option<+T> = None | Some(value: T)

  /** `Result<T, String>`. */
  datatype Result<+T> = Ok(value: T) | Err(msg: string)
}
