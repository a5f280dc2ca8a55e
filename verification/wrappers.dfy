/** The optional-value datatype used throughout the model: Python's `None`
    versus a present value. */
module Wrappers {

  datatype Option<+T> = None | Some(value: T) {

    /** The zero- or one-element sequence holding the value */
    function ToSeq(): (r: seq<T>)
      ensures |r| <= 1
      ensures Some? <==> |r| == 1
      ensures Some? ==> r[0] == value
    {
      match this
      case Some(v) => [v]
      case None => []
    }
  }
}
