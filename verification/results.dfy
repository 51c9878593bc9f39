/** Outcome types shared by every script function of the model. */
module Results {

  /** `None` stands for a script value that is null (or, for image
      parameters, not a BufferedImage at all). */
  datatype Option<+T> = None | Some(value: T) {
    function GetOr(default: T): T {
      match this
      case Some(v) => v
      case None => default
    }
  }

  /** Which image parameter a `BadImage` error is about. */
  datatype Operand = First | Second

  /** Which dimension a `BadDimensions` error is about. */
  datatype Axis = Width | Height

  /** The error values the image functions hand back to the script. */
  datatype Error =
    | BadImage(operand: Operand)
    | BadDimensions(axis: Axis)
    | BadCoordinates
    | BadMode
    | BadBlend
    | BadFormat

  datatype Result<+T> = Success(value: T) | Failure(error: Error) {
    function ToOption(): Option<T> {
      match this
      case Success(v) => Some(v)
      case Failure(_) => None
    }
  }
}
