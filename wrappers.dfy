/** The conventional optional value: `None` stands for JavaScript's `undefined`,
    `NaN` time values and thrown errors wherever the model needs "no value". */
module Wrappers {

  datatype Option<+T> = None | Some(value: T)

}
