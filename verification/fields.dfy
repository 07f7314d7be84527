/** Field resolution shared by every record of the report: most sections and
    per-record fields are accepted under a snake_case and a camelCase key, and
    the source reads them as `obj.snake_case || obj.camelCase`. */
module Fields {
  import opened Wrappers

  /** A field that may be spelled two ways in the raw document. `None` on
      either side means the key is absent or holds a falsy value. */
  datatype Aliased<T> = Aliased(snake: Option<T>, camel: Option<T>) {

    /** `snake || camel`: the snake_case value wins whenever it is present. */
    function Resolve(): (r: Option<T>)
      ensures r.Some? <==> snake.Some? || camel.Some?
      ensures snake.Some? ==> r == snake
      ensures snake.None? ==> r == camel
    {
      if snake.Some? then snake else camel
    }
  }

  /** A field present under neither spelling. */
  function Missing<T>(): (a: Aliased<T>)
    ensures a.Resolve().None?
  {
    Aliased(None, None)
  }
}
