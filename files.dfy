/** The file system as the script sees it: each existing path and the text read from it. */
module Files {

  type FileSystem = map<string, string>
}
