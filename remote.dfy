/** The remote host as the rest of the program sees it through one SSH
    session: a command goes in, captured output or a failure comes out.
    Authentication, channels, pseudo-terminals and SCP/SFTP streaming stay
    outside the model; the remote host is an oracle from command to reply. */
module Remote {

  /** One request over the session. */
  datatype Command =
    /** `exec`: run a shell command, capture its combined output. */
    | Exec(line: string)
    /** `sudo`: run `sudo -S -p '' <line>` on a pseudo-terminal and write the
        password, then a newline, to its input. */
    | Sudo(line: string, password: string)
    /** `scp_upload` / `scp_send`: copy a local file or tree to the remote path. */
    | Upload(local: string, remote: string)
    /** `scp_recv`: copy a remote file or tree to the local path. */
    | Receive(remote: string, local: string)

  /** A failure is a channel or transfer error; a non-zero exit status is not
      one, it only shows in the captured text. */
  datatype Reply = Output(text: string) | Failure

  /** What the remote host answers to each command. */
  type Oracle = Command -> Reply
}
