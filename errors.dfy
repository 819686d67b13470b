/** Error codes, the tagged result type and the pure error-formatting helpers. */
module Errors {

  /** The error codes of the toolkit.  `AuthenticationFailed` is used by the
      authenticated decryption but missing from the enumeration as written; the
      model gives it the next free value of the encryption group, 404. */
  datatype ErrorCode =
    | Success
    | FileNotFound | FileReadError | FileWriteError | FilePermissionDenied
    | ImageLoadFailed | ImageSaveFailed | ImageTooSmall | ImageCorrupted
    | UnsupportedImageFormat | InvalidImageDimensions
    | InsufficientCapacity | DataTooLarge
    | EncryptionFailed | DecryptionFailed | InvalidPassword | KeyDerivationFailed
    | AuthenticationFailed
    | EmbeddingFailed | ExtractionFailed | InvalidDataSize | CorruptedPayload | NoEmbeddedData
    | UnknownError | InvalidArgument | NotImplemented
  {
    /** The numeric value the enumeration assigns (what `static_cast<int>` yields). */
    function Value(): int
    {
      match this
      case Success => 0
      case FileNotFound => 100
      case FileReadError => 101
      case FileWriteError => 102
      case FilePermissionDenied => 103
      case ImageLoadFailed => 200
      case ImageSaveFailed => 201
      case ImageTooSmall => 202
      case ImageCorrupted => 203
      case UnsupportedImageFormat => 204
      case InvalidImageDimensions => 205
      case InsufficientCapacity => 300
      case DataTooLarge => 301
      case EncryptionFailed => 400
      case DecryptionFailed => 401
      case InvalidPassword => 402
      case KeyDerivationFailed => 403
      case AuthenticationFailed => 404
      case EmbeddingFailed => 500
      case ExtractionFailed => 501
      case InvalidDataSize => 502
      case CorruptedPayload => 503
      case NoEmbeddedData => 504
      case UnknownError => 900
      case InvalidArgument => 901
      case NotImplemented => 902
    }

    /** The group under which the enumeration declares the code. */
    function Group(): Group
    {
      match this
      case Success => SuccessGroup
      case FileNotFound | FileReadError | FileWriteError | FilePermissionDenied => FileGroup
      case ImageLoadFailed | ImageSaveFailed | ImageTooSmall | ImageCorrupted
        | UnsupportedImageFormat | InvalidImageDimensions => ImageGroup
      case InsufficientCapacity | DataTooLarge => CapacityGroup
      case EncryptionFailed | DecryptionFailed | InvalidPassword | KeyDerivationFailed
        | AuthenticationFailed => CryptoGroup
      case EmbeddingFailed | ExtractionFailed | InvalidDataSize | CorruptedPayload
        | NoEmbeddedData => EmbeddingGroup
      case UnknownError | InvalidArgument | NotImplemented => GeneralGroup
    }
  }

  /** The comment groups of the enumeration declaration. */
  datatype Group = SuccessGroup | FileGroup | ImageGroup | CapacityGroup | CryptoGroup
                 | EmbeddingGroup | GeneralGroup

  /** The category name a group's codes are expected to report. */
  function GroupName(g: Group): string
  {
    match g
    case SuccessGroup => "Success"
    case FileGroup => "File I/O Error"
    case ImageGroup => "Image Error"
    case CapacityGroup => "Capacity Error"
    case CryptoGroup => "Encryption Error"
    case EmbeddingGroup => "Embedding Error"
    case GeneralGroup => "General Error"
  }

  lemma ValueInjective(a: ErrorCode, b: ErrorCode)
    ensures a.Value() == b.Value() <==> a == b
  {
  }

  /** An optional value, for collaborators that either deliver or fail. */
  datatype Option<T> = None | Some(value: T)

  /** A tagged result: a value on success, an error code and message otherwise.
      `Result<()>` plays the role of the value-less specialisation. */
  datatype Result<T> = Ok(value: T) | Err(code: ErrorCode, message: string)
  {
    function GetErrorCode(): ErrorCode
    {
      if Ok? then Success else code
    }

    function GetErrorMessage(): string
    {
      if Ok? then "" else message
    }

    predicate IsSuccess()
    {
      Ok?
    }

    predicate IsError()
    {
      !IsSuccess()
    }

    /** Conversion to `bool`. */
    predicate ToBool()
    {
      IsSuccess()
    }

    function GetValue(): T
      requires IsSuccess()
    {
      value
    }
  }

  /** The error constructor: a failure carrying `code` and `message` verbatim. */
  function Failure<T>(code: ErrorCode, message: string): (r: Result<T>)
    requires code != Success
    ensures r.IsError() && !r.ToBool()
    ensures r.GetErrorCode() == code && r.GetErrorMessage() == message
  {
    Err(code, message)
  }

  /** The value constructor. */
  function Succeed<T>(v: T): (r: Result<T>)
    ensures r.IsSuccess() && r.ToBool() && !r.IsError()
    ensures r.GetErrorCode() == Success && r.GetValue() == v
  {
    Ok(v)
  }

  /** The value-less success `Result<>()`. */
  function Done(): (r: Result<()>)
    ensures r.IsSuccess() && r.GetErrorCode() == Success
  {
    Ok(())
  }

  /** For every result that the constructors can build, success is exactly the
      code `Success`, an error is the negation and the `bool` view is success. */
  lemma SuccessIffCodeSuccess<T>(r: Result<T>)
    requires r.Err? ==> r.code != Success
    ensures r.IsSuccess() <==> r.GetErrorCode() == Success
    ensures r.IsError() == !r.IsSuccess() && r.ToBool() == r.IsSuccess()
  {
  }

  /** Re-labels the error of a failed result for a result of another value type,
      the source's `Result<>(r.GetErrorCode(), r.GetErrorMessage())`. */
  function Propagate<T, U>(r: Result<T>, prefix: string): (q: Result<U>)
    requires r.IsError()
    ensures q.IsError() && q.GetErrorCode() == r.GetErrorCode()
    ensures q.GetErrorMessage() == prefix + r.GetErrorMessage()
  {
    Err(r.code, prefix + r.message)
  }

  /** Category of an integer error value, by numeric range. */
  function CategoryOf(v: int): string
  {
    if v == 0 then "Success"
    else if 100 <= v < 200 then "File I/O Error"
    else if 200 <= v < 300 then "Image Error"
    else if 300 <= v < 400 then "Capacity Error"
    else if 400 <= v < 500 then "Encryption Error"
    else if 500 <= v < 600 then "Embedding Error"
    else if v >= 900 then "General Error"
    else "Unknown Error"
  }

  function GetErrorCategory(code: ErrorCode): string
  {
    CategoryOf(code.Value())
  }

  /** Every code's numeric range names the group it is declared in. */
  lemma CategoryMatchesGroup(code: ErrorCode)
    ensures GetErrorCategory(code) == GroupName(code.Group())
    ensures GetErrorCategory(code) != "Unknown Error"
  {
  }

  /** The values between the groups (and negative values) are "Unknown Error";
      no code of the enumeration has one of them. */
  lemma UnknownCategoryGaps(v: int)
    ensures CategoryOf(v) == "Unknown Error" <==> (v < 0 || 1 <= v < 100 || 600 <= v < 900)
    ensures CategoryOf(v) == "Unknown Error" ==> forall c: ErrorCode :: c.Value() != v
  {
  }

  function GetErrorDescription(code: ErrorCode): string
  {
    match code
    case Success => "Operation completed successfully"
    case FileNotFound => "File not found or does not exist"
    case FileReadError => "Failed to read file"
    case FileWriteError => "Failed to write file"
    case FilePermissionDenied => "Permission denied to access file"
    case ImageLoadFailed => "Failed to load image"
    case ImageSaveFailed => "Failed to save image"
    case ImageTooSmall => "Image is too small to contain embedded data"
    case ImageCorrupted => "Image data is corrupted or invalid"
    case UnsupportedImageFormat => "Image format is not supported"
    case InvalidImageDimensions => "Image dimensions are invalid"
    case InsufficientCapacity => "Image does not have enough capacity for the data"
    case DataTooLarge => "Data is too large to embed in the image"
    case EncryptionFailed => "Encryption operation failed"
    case DecryptionFailed => "Decryption operation failed"
    case AuthenticationFailed => "Authentication failed (incorrect password or corrupted data)"
    case EmbeddingFailed => "Failed to embed data into image"
    case ExtractionFailed => "Failed to extract data from image"
    case InvalidDataSize => "Embedded data size is invalid or corrupted"
    case CorruptedPayload => "Data structure is corrupted or invalid"
    case NoEmbeddedData => "No embedded data found in image"
    case UnknownError => "An unknown error occurred"
    case InvalidArgument => "Invalid argument provided"
    case NotImplemented => "Feature not implemented"
    case _ => "Undefined error"
  }

  /** Exactly the two codes without a case of their own fall to the default. */
  lemma UndefinedDescriptions(code: ErrorCode)
    ensures GetErrorDescription(code) == "Undefined error"
        <==> code == InvalidPassword || code == KeyDerivationFailed
  {
  }

  /** The fixed head of a formatted error: category, ": ", description. */
  function Headline(code: ErrorCode): string
  {
    GetErrorCategory(code) + ": " + GetErrorDescription(code)
  }

  function FormatError(code: ErrorCode, context: string): (r: string)
    ensures |r| >= |Headline(code)| && r[..|Headline(code)|] == Headline(code)
    ensures r == Headline(code) <==> context == []
    ensures context != [] ==> r[|Headline(code)|..] == "\n    Details: " + context
  {
    var message := Headline(code);
    if context != [] then message + "\n    Details: " + context else message
  }
}
