/** Failure-carrying values used across the pipeline: every stage that can
    abort the run returns one of these instead of throwing. */
module Wrappers {

  datatype Option<+T> = None | Some(value: T)

  datatype Result<+T, +E> = Ok(value: T) | Err(error: E)

  datatype Outcome<+E> = Pass | Fail(error: E)
}

/** The ways one run of the changelog generator can fail. */
module Errors {

  datatype Error =
    | InvalidArgument
      // a commit line with fewer than four `~>` fields: its subject is
      // undefined and escaping it throws
    | MalformedLine(index: nat)
      // the package version orders strictly before the latest tag
    | VersionRegression(pkgVersion: string, latestTag: string)
      // a version that the comparison cannot read
    | InvalidVersion(version: string)
}
