/** Optional values and the error paths of the face-exaggeration engine. */
module Outcomes {

  datatype Option<+T> = None | Some(value: T)

  /** The exceptions that make exaggerate_face give up and return its input. */
  datatype Failure =
    | LandmarkIndexError   // a fixed landmark index is beyond the detected mesh
    | EmptySourceBlock     // warpAffine is handed an empty slice of the input image
    | ShapeMismatch        // line 90: the canvas slice and the mask cannot be broadcast together

  datatype Result<+T> = Ok(value: T) | Err(failure: Failure)
}
