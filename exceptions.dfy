/** The single error kind of the library: `illegal_argument`, raised for a
    vertex index outside the graph or a negative weight. A raising call is
    modelled as a call that returns `IllegalArgument` and changes nothing. */
module Exceptions {

  datatype Result<T> = Ok(value: T) | IllegalArgument
}
