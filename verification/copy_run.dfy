/** The copy action as it runs: it fills its result step by step and issues requests to the agent. */
module CopyRun {
  import opened Wrappers
  import opened FileSystem
  import opened Attributes
  import opened WriteFiles
  import opened Modes
  import opened CopyAction
  import opened AgentProcess

  class CopyTask {
    const agent: Agent
    const args: CopyArgs

    constructor (agent: Agent, args: CopyArgs)
      ensures this.agent == agent && this.args == args
    {
      this.agent, this.args := agent, args;
    }

    function WorldWith(chance: Chance): World {
      World(agent.host, agent.acc, agent.codec, chance, agent.faults)
    }

    method FastagentCopyData(data: Bytes, chance: Chance) returns (result: CopyResult)
      modifies agent`fs, agent`history
      ensures var r := CopyData(old(agent.fs), data, args, WorldWith(chance)); agent.fs == r.fs && result == r.result
    {
      var dest := args.dest;
      var localChecksum := agent.codec.sha(data);
      var remote := StatRpc(agent.fs.tree, dest, agent.codec);
      if remote.StatError? { return Failed; }
      if remote.Present? && remote.isDir {
        if args.basename.None? { return Failed; }
        dest := dest.Join(args.basename.value);
        remote := StatRpc(agent.fs.tree, dest, agent.codec);
        if remote.StatError? { return Failed; }
      }
      if remote.Present? && !args.force { return Finished(false, dest); }
      var changed := true;
      if remote.Present? && !remote.isDir {
        if remote.checksum == localChecksum && args.force { changed := false; }
      }
      if !changed {
        if !args.checkMode && AsksForAttributes(args) {
          var ch, err := agent.HandleFileFile(dest, RequestOf(args));
          if err.Some? { return Failed; }
          return Finished(ch, dest);
        }
        return Finished(false, dest);
      }
      if args.diff && remote.Present? && !remote.isDir {
        var old_ := ContentAt(agent.fs.tree, dest);
        if old_.None? { return Failed; }
      }
      if args.checkMode { return Finished(true, dest); }
      var ch, _, err := agent.HandleWriteFile(WriteParamsOf(args, dest, data, agent.codec), chance);
      if err.Some? { return Failed; }
      return Finished(ch, dest);
    }
  }
}
