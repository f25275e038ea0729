/** The shared, read-only settings of one download run. */
module Config {
  import opened Format

  /**
   * `output_dir` is kept as the path's text. `concurrency` is the permit count
   * of `download_all`'s semaphore, which the model does not use: the tasks run
   * one after another.
   */
  datatype DownloadConfig = DownloadConfig(format: MediaFormat, outputDir: string, concurrency: nat)
}
