/** The process environment, passed in as a map. */
module Env {
  /** `os.Getenv`: an unset variable reads as "". */
  function Getenv(env: map<string, string>, name: string): string
  {
    if name in env then env[name] else ""
  }

  /** The error for a required variable that is unset or empty. */
  function MissingEnvMessage(name: string): string
  {
    "the environment variable " + name + " must be set"
  }
}
