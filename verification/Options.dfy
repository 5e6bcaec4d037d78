module Options {

  datatype Option<T> = None | Some(value: T) {
    function UnwrapOr(default: T): T {
      if this.Some? then value else default
    }
  }
}
