/** The type names the IQ-TREE wrapper uses; paths are plain strings here. */
module CustomTypes {
  type FilePath = string
  type Executable = string
  type Model = string
  /** An argument vector: the executable followed by its arguments. */
  type Command = seq<string>
}
