/** The parts of `gitscribe.json` that the release flow reads. */
module Configuration {
  import opened Wrappers
  import opened VersionFileSync

  /** `Config`, without `changelog_output_selections`, which only the
      changelog renderer reads. */
  datatype Config = Config(
    version: string,
    projectRepo: Option<string>,
    versionSyncFiles: Option<seq<VersionSyncFile>>)

  /** `Config::create_default`. */
  function CreateDefault(): Config
  {
    Config("0.0.1", None, None)
  }
}
