/** pkg/image/types.go and the `Image` collaborator of pkg/image/image.go. */
module ImageTypes {
  import opened Wrappers

  /** `EnvVar` and `BuildArg` have the same three fields: a name, its value
      and the verbatim line the pair was recovered from. */
  datatype NameValue = NameValue(name: string, value: string, location: string)

  type EnvVar = NameValue
  type BuildArg = NameValue

  /** The `Image` interface as the detectors see it: what its
      `ParseEnvVars` and `ParseBuildArguments` calls return. */
  datatype Image = Image(envVars: Result<seq<EnvVar>>, buildArgs: Result<seq<BuildArg>>)
}
