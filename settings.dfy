/**
 * The settings validation of src/bin/simulation/settings/si.rs: a parsed
 * TOML parameter file is accepted only when every edge of the simulation
 * box is positive and the number of particles written per output step
 * (`particles_head`) does not exceed the number of simulated particles.
 * Before validation the recorded program version is blanked.
 *
 * Only the fields these two steps read or write are modelled; reading the
 * file and TOML parsing are parameters.
 */
module Settings {
  import opened Wrappers
  import Particles

  /** `output_at_timestep`: how many particles each output step writes, if limited. */
  datatype OutputSettings = OutputSettings(particlesHead: Option<nat>)

  datatype SimulationSettings = SimulationSettings(
    boxSize: Particles.BoxSize,
    numberOfParticles: nat,
    outputAtTimestep: OutputSettings)

  datatype EnvironmentSettings = EnvironmentSettings(version: string)

  datatype SettingsSI = SettingsSI(simulation: SimulationSettings, environment: EnvironmentSettings)

  /** The ways `read_parameter_file` fails, one per `chain_err` or `bail!`. */
  datatype SettingsError =
    | UnreadableFile
    | UnparsableFile
    | InvalidBoxSize(boxSize: Particles.BoxSize)
    | TooManyHeadParticles(particlesHead: nat, numberOfParticles: nat)

  /** Every edge of the box is strictly positive. */
  predicate BoxIsPositive(bs: Particles.BoxSize)
  {
    bs.x > 0.0 && bs.y > 0.0 && bs.z > 0.0
  }

  /** Either no head is requested, or it is at most the number of particles. */
  predicate HeadFits(s: SimulationSettings)
  {
    match s.outputAtTimestep.particlesHead
    case None => true
    case Some(head) => head <= s.numberOfParticles
  }

  /**
   * `check_settings`: the box test first, then the head test. It fails
   * exactly when one of them fails, with the error of the first failing test.
   */
  function CheckSettings(s: SettingsSI): (r: Result<(), SettingsError>)
    ensures r.Ok? <==> BoxIsPositive(s.simulation.boxSize) && HeadFits(s.simulation)
    ensures r == Err(InvalidBoxSize(s.simulation.boxSize)) <==> !BoxIsPositive(s.simulation.boxSize)
    ensures r.Err? && r.error.TooManyHeadParticles? <==>
              BoxIsPositive(s.simulation.boxSize) && !HeadFits(s.simulation)
  {
    var bs := s.simulation.boxSize;
    if bs.x <= 0.0 || bs.y <= 0.0 || bs.z <= 0.0 then
      Err(InvalidBoxSize(bs))
    else if s.simulation.outputAtTimestep.particlesHead.Some?
         && s.simulation.numberOfParticles < s.simulation.outputAtTimestep.particlesHead.value then
      Err(TooManyHeadParticles(s.simulation.outputAtTimestep.particlesHead.value, s.simulation.numberOfParticles))
    else
      Ok(())
  }

  /**
   * Only the box size, the number of particles and the head are examined:
   * settings that agree on those three are judged alike, whatever their
   * version string.
   */
  lemma CheckReadsOnlyBoxAndHead(s: SettingsSI, t: SettingsSI)
    requires s.simulation == t.simulation
    ensures CheckSettings(s) == CheckSettings(t)
  {
  }

  /** The settings with the version string blanked. */
  function BlankVersion(s: SettingsSI): (r: SettingsSI)
    ensures r.environment.version == ""
    ensures r.simulation == s.simulation
  {
    s.(environment := s.environment.(version := ""))
  }

  /**
   * `read_parameter_file`: the file's text (or the failure to read it) and
   * the TOML parser are given; parsed settings have their version blanked
   * and are returned only if `check_settings` accepts them.
   */
  function ReadParameterFile(content: Option<string>, parse: string -> Option<SettingsSI>): (r: Result<SettingsSI, SettingsError>)
    ensures content.None? ==> r == Err(UnreadableFile)
    ensures content.Some? && parse(content.value).None? ==> r == Err(UnparsableFile)
    ensures r.Ok? <==> content.Some? && parse(content.value).Some?
                       && CheckSettings(parse(content.value).value).Ok?
    ensures r.Ok? ==> r.value == BlankVersion(parse(content.value).value)
    ensures content.Some? && parse(content.value).Some? &&
            CheckSettings(BlankVersion(parse(content.value).value)).Err? ==>
              r == Err(CheckSettings(BlankVersion(parse(content.value).value)).error)
  {
    match content
    case None => Err(UnreadableFile)
    case Some(text) =>
      match parse(text)
      case None => Err(UnparsableFile)
      case Some(parsed) =>
        var settings := BlankVersion(parsed);
        match CheckSettings(settings)
        case Err(e) => Err(e)
        case Ok(_) => Ok(settings)
  }

  /** Every accepted settings value carries the empty version and passes the check. */
  lemma AcceptedSettingsAreValid(content: Option<string>, parse: string -> Option<SettingsSI>)
    requires ReadParameterFile(content, parse).Ok?
    ensures var s := ReadParameterFile(content, parse).value;
            && s.environment.version == ""
            && BoxIsPositive(s.simulation.boxSize)
            && HeadFits(s.simulation)
  {
    var s := ReadParameterFile(content, parse).value;
    assert CheckSettings(s).Ok? by {
      CheckReadsOnlyBoxAndHead(s, parse(content.value).value);
    }
  }

  /** The sample case: a box with a zero edge is rejected before the head is looked at. */
  lemma ZeroEdgeIsRejected()
    ensures var s := SettingsSI(SimulationSettings(Particles.BoxSize(1.0, 0.0, 1.0), 10, OutputSettings(Some(20))),
                                EnvironmentSettings("v1"));
            CheckSettings(s) == Err(InvalidBoxSize(Particles.BoxSize(1.0, 0.0, 1.0)))
  {
  }
}
