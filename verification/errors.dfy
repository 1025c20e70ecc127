/** The ways a playback session can fail before or while producing frames. */
module Errors {

  datatype Error =
    | NoInputFile                  // neither --infile nor a positional argument
    | InputNotFound(path: string)  // the chosen input path does not exist
    | ZeroFps                      // 1.0 / fps with fps == 0 raises ZeroDivisionError
    | NoImages(dir: string)        // a directory with no *.jp* and no *.png file
    | NotAnInteger(path: string)   // a file-name stem that int() rejects
}
