/** The configuration values the modelled code reads (config.py). */
module Settings {
  /** `settings.max_chunks`: the default number of chunks a search returns. */
  const MaxChunks: nat := 5

  /** `settings.embedding_dimension`: the length of an embedding vector. */
  const EmbeddingDimension: nat := 1024

  /** `settings.database_path`: where the DuckDB file is expected. */
  const DatabasePath: string := "dof_db/db.duckdb"
}
