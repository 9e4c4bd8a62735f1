/** The optional value shared by the model: the TypeScript source uses
    `undefined` for "no value" (a failed query, a failed publish, the
    bootstrap state), and this datatype stands for `T | undefined`.
 */
module Wrappers {

  datatype Option<+T> = None | Some(value: T)
}
