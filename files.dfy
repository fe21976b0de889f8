/** The working tree the tools read and write, as a value. */
module Files {

  /** A path is a key exactly when that file exists; the value is the file's text. */
  type FileSystem = map<string, string>

  /** Where a section's fragment lives: `sections/<name>/<name>.html`. */
  function SectionPath(name: string): string {
    "sections/" + name + "/" + name + ".html"
  }
}
