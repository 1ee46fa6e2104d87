/**
 * What `main` of the two WinINet clients reports: the "already exists" handling
 * of the mkdir operation, and the process exit code. Each stage of `main` is
 * reduced to whether it succeeded; the exit code depends on nothing else.
 */
module Cli {

  /** The Win32 error codes the mkdir operation forgives. */
  const ERROR_FILE_EXISTS: nat := 80
  const ERROR_ALREADY_EXISTS: nat := 183

  /**
   * The mkdir operation of both clients: `FtpCreateDirectoryA` succeeded, or it
   * failed and `GetLastError` reports that the name already exists.
   */
  function MkdirOk(created: bool, lastError: nat): bool
  {
    created || lastError == ERROR_ALREADY_EXISTS || lastError == ERROR_FILE_EXISTS
  }

  /**
   * The exit code of ftp_client_v2.cpp: 1 without a command or without a
   * readable configuration, 2 when WinINet cannot be initialised, 3 when the
   * connection fails, then 0 or 4 by the operation's result.
   */
  function ExitCodeV2(argc: int, configLoaded: bool, initOk: bool, connectOk: bool, ok: bool): (code: int)
    ensures code in {0, 1, 2, 3, 4}
    ensures code == 1 <==> argc < 2 || !configLoaded
    ensures code == 2 <==> argc >= 2 && configLoaded && !initOk
    ensures code == 3 <==> argc >= 2 && configLoaded && initOk && !connectOk
    ensures code == 4 <==> argc >= 2 && configLoaded && initOk && connectOk && !ok
    ensures code == 0 <==> argc >= 2 && configLoaded && initOk && connectOk && ok
  {
    if argc < 2 then 1
    else if !configLoaded then 1
    else if !initOk then 2
    else if !connectOk then 3
    else if ok then 0
    else 4
  }

  /**
   * The exit code of ftp_client.cpp: 1 with fewer than four arguments, 2 when
   * WinINet cannot be initialised, 3 when the connection fails, then 0 or 4 by the
   * operation's result.
   */
  function ExitCodeV1(argc: int, initOk: bool, connectOk: bool, ok: bool): (code: int)
    ensures code in {0, 1, 2, 3, 4}
    ensures code == 1 <==> argc < 5
    ensures code == 2 <==> argc >= 5 && !initOk
    ensures code == 3 <==> argc >= 5 && initOk && !connectOk
    ensures code == 4 <==> argc >= 5 && initOk && connectOk && !ok
    ensures code == 0 <==> argc >= 5 && initOk && connectOk && ok
  {
    if argc < 5 then 1
    else if !initOk then 2
    else if !connectOk then 3
    else if ok then 0
    else 4
  }

  /**
   * Past the argument and configuration checks the two clients map every
   * outcome to the same code.
   */
  lemma SameCodesPastSetup(initOk: bool, connectOk: bool, ok: bool)
    ensures ExitCodeV1(5, initOk, connectOk, ok) == ExitCodeV2(2, true, initOk, connectOk, ok)
  {
  }

  /**
   * A connected mkdir exits with 0 exactly when the directory was created or
   * already existed, in both clients; any other error gives 4.
   */
  lemma MkdirExitCode(created: bool, lastError: nat)
    ensures var code := ExitCodeV2(2, true, true, true, MkdirOk(created, lastError));
      code == (if created || lastError in {80, 183} then 0 else 4)
    ensures var code := ExitCodeV1(5, true, true, MkdirOk(created, lastError));
      code == (if created || lastError in {80, 183} then 0 else 4)
  {
  }
}
