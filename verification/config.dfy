/** Loading the four settings the program needs (ssync.py:24-34). The INI
    file has already been read into a map from (section, key) to value. */
module Config {
  import opened Failures

  type ConfigMap = map<(string, string), string>

  datatype Settings = Settings(
    remoteDir: string,     // RCLONE / remote_dir: what `rclone sync` mirrors
    localDir: string,      // RCLONE / local_dir: the local mirror holding the slide folders
    slidesDir: string,     // OBS / slides_dir: the output directory
    targetSubdir: string)  // OBS / target_subdir: the prefix of every output folder name

  const RemoteDirKey := ("RCLONE", "remote_dir")
  const LocalDirKey := ("RCLONE", "local_dir")
  const SlidesDirKey := ("OBS", "slides_dir")
  const TargetSubdirKey := ("OBS", "target_subdir")

  /** Loading succeeds exactly when all four keys are present, and then each
      setting is the configured value; any missing key is the one fatal
      configuration error, whichever key it is. */
  function Load(config: ConfigMap): (r: Result<Settings>)
    ensures r.Success? <==> RemoteDirKey in config && LocalDirKey in config
                            && SlidesDirKey in config && TargetSubdirKey in config
    ensures r.Success? ==> r.value.remoteDir == config[RemoteDirKey]
                           && r.value.localDir == config[LocalDirKey]
                           && r.value.slidesDir == config[SlidesDirKey]
                           && r.value.targetSubdir == config[TargetSubdirKey]
    ensures r.Failure? ==> r.error == ConfigUnreadable
  {
    if RemoteDirKey !in config then Failure(ConfigUnreadable)
    else if LocalDirKey !in config then Failure(ConfigUnreadable)
    else if SlidesDirKey !in config then Failure(ConfigUnreadable)
    else if TargetSubdirKey !in config then Failure(ConfigUnreadable)
    else Success(Settings(config[RemoteDirKey], config[LocalDirKey],
                          config[SlidesDirKey], config[TargetSubdirKey]))
  }

  /** Agreeing on the four required keys decides the outcome: every other
      section and key of the file is ignored. */
  lemma LoadReadsOnlyRequiredKeys(a: ConfigMap, b: ConfigMap)
    requires forall k :: k in [RemoteDirKey, LocalDirKey, SlidesDirKey, TargetSubdirKey] ==>
               (k in a <==> k in b) && (k in a ==> a[k] == b[k])
    ensures Load(a) == Load(b)
  {
  }
}
