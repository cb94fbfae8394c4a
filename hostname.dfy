/** getHostname in controllers/network_controller.go: the name of the node the controllers run on. */
module Hostname {
  import opened Wrappers

  /** The environment variable that names the node. */
  const NodeName: string := "NODE_NAME"

  /** NODE_NAME when it is set and not empty; otherwise what the operating system reports, error included. */
  function GetHostname(env: map<string, string>, osHostname: Result<string>): (r: Result<string>)
    ensures NodeName in env && env[NodeName] != "" ==> r == Ok(env[NodeName])
    ensures NodeName !in env || env[NodeName] == "" ==> r == osHostname
  {
    var host := if NodeName in env then env[NodeName] else "";
    if host == "" then
      match osHostname
      case Err(e) => Err(e)
      case Ok(name) => Ok(name)
    else Ok(host)
  }
}
