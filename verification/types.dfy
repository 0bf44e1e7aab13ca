/** The records the extension passes around (src/types.d.ts). */
module Types {

  /** A directory: its path relative to its workspace root ("/" for the root itself) and its absolute path. */
  datatype FSLocation = FSLocation(relative: string, absolute: string)

  /** One candidate directory as the quick pick shows it. */
  datatype DirectoryOption = DirectoryOption(displayText: string, fsLocation: FSLocation)

  /** An open workspace folder; `multi` is true when more than one folder is open. */
  datatype WorkspaceRoot = WorkspaceRoot(rootPath: string, baseName: string, multi: bool)
}
