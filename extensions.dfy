/** The fixed table from a programming-language tag to its conventional file suffix. */
module Extensions {

  /** The suffixes `get_file_extension` knows about. */
  const EXTENSIONS: map<string, string> := map[
    "python" := ".py",
    "javascript" := ".js",
    "java" := ".java",
    "cpp" := ".cpp",
    "c" := ".c",
    "csharp" := ".cs",
    "php" := ".php",
    "ruby" := ".rb",
    "go" := ".go",
    "rust" := ".rs",
    "swift" := ".swift",
    "kotlin" := ".kt",
    "typescript" := ".ts",
    "html" := ".html",
    "css" := ".css",
    "sql" := ".sql",
    "r" := ".R",
    "matlab" := ".m",
    "scala" := ".scala",
    "perl" := ".pl",
    "bash" := ".sh"
  ]

  /** What any language missing from the table gets. */
  const DEFAULT_EXTENSION: string := ".txt"

  /**
   * The suffix for `language`: a dot followed by at least one character with no
   * line break in it, and `.txt` exactly for the languages the table does not list.
   */
  function FileExtension(language: string): (ext: string)
    ensures |ext| >= 2 && ext[0] == '.'
    ensures '\n' !in ext
    ensures ext == DEFAULT_EXTENSION <==> language !in EXTENSIONS
  {
    if language in EXTENSIONS then EXTENSIONS[language] else DEFAULT_EXTENSION
  }
}
