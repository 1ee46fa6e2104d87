/**
 * The `excluded` predicates that keep local entries out of an upload: the
 * shorter list of ftp_client.cpp and the longer one of ftp_client_v2.cpp.
 */
module Exclusion {

  /** `excluded` of ftp_client.cpp. */
  predicate ExcludedV1(name: string)
  {
    if name == "" then true
    else if name[0] == '.' then true
    else name == "node_modules" || name == "vendor" || name == ".git" || name == ".vscode"
  }

  /** `excluded` of ftp_client_v2.cpp: the same tests plus the tool's own artifacts. */
  predicate ExcludedV2(name: string)
  {
    if name == "" then true
    else if name[0] == '.' then true
    else if name == "node_modules" || name == "vendor" || name == ".git" || name == ".vscode" then true
    else name == "ftp.log" || name == "ftp_client.exe" || name == "ftp_client_v2.exe"
  }

  /** A hidden name: one starting with '.'. */
  predicate Hidden(name: string)
  {
    name != "" && name[0] == '.'
  }

  /**
   * The first client excludes exactly the empty name, hidden names, `node_modules`
   * and `vendor`; `.git` and `.vscode` are already hidden names.
   */
  lemma ExcludedV1Exactly(name: string)
    ensures ExcludedV1(name) <==> name == "" || Hidden(name) || name == "node_modules" || name == "vendor"
  {
  }

  /**
   * The second client excludes exactly the empty name, hidden names, `node_modules`,
   * `vendor`, `ftp.log`, `ftp_client.exe` and `ftp_client_v2.exe`.
   */
  lemma ExcludedV2Exactly(name: string)
    ensures ExcludedV2(name) <==>
      name == "" || Hidden(name) || name == "node_modules" || name == "vendor" ||
      name == "ftp.log" || name == "ftp_client.exe" || name == "ftp_client_v2.exe"
  {
  }

  /**
   * The second list extends the first by exactly the three tool artifacts: every
   * name the first client skips the second skips too, and the names only the
   * second skips are `ftp.log`, `ftp_client.exe` and `ftp_client_v2.exe`.
   */
  lemma ExcludedV2ExtendsV1(name: string)
    ensures ExcludedV1(name) ==> ExcludedV2(name)
    ensures ExcludedV2(name) && !ExcludedV1(name) <==>
      name == "ftp.log" || name == "ftp_client.exe" || name == "ftp_client_v2.exe"
  {
  }
}
