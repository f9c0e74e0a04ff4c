/** The fixed names the versioning component is built around. */
module Constants {

  /** Prefix of every session-storage key the component writes. */
  const ComponentPrefix: string := "techdocs-versioning"

  /** The path segment that introduces a version: `/versions/{token}`. */
  const VersionsDirectory: string := "versions"

  /** The version shown when the URL names none; always offered. */
  const DefaultVersion: string := "latest"
}
