/**
 * Values shared by every step of the log filter: the shape of a log entry
 * as the host hands it to `writeLog`, stack frames, and the errors PHP raises
 * on the way (lib/Log.php).
 */
module LogTypes {

  datatype Option<+T> = None | Some(value: T)

  datatype Result<+T, +E> = Ok(value: T) | Err(error: E)

  /** The errors the PHP code raises instead of returning normally. */
  datatype Failure =
    /** `array_key_exists('Trace', $entry)` on a string entry (lib/Log.php:155). */
    | EntryNotArray
    /** `array_key_exists` on a null app info or on a repository that is not an
        array (lib/Log.php:144-145); carries the app id. */
    | AppInfoNotArray(appId: string)
    /** A class name the PHP runtime cannot resolve (lib/Log.php:190). */
    | ClassNotFound(name: string)

  /** One element of an entry's `Trace` array: `file` and `line` may be absent. */
  datatype Frame = Frame(file: Option<string>, line: Option<int>)

  /** A value stored under a key of a structured entry.  Only strings and
      lists of frames matter to the filter; anything else is opaque. */
  datatype Value = Text(text: string) | FrameList(frames: seq<Frame>) | Opaque(id: nat)

  /** A log entry is either a plain string or a PHP array of named fields. */
  datatype Entry = Plain(text: string) | Structured(fields: map<string, Value>)
}
