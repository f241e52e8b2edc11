/**
 * The frozen `Volunteer` and `Event` records of the weighted ranker.
 * A Dafny datatype value is immutable, as a frozen dataclass is; `skills`,
 * `availability`, `time_blocks` and the rest are sets of opaque tokens
 * (such as "sat_am"), and the radii are integers. The field `requires` is
 * called `requiredCerts` here, `requires` being a Dafny keyword.
 */
module Domain {

  datatype Volunteer = Volunteer(
    id: int,
    name: string,
    skills: set<string>,
    languages: set<string>,
    availability: set<string>,
    radiusMiles: int,
    certifications: set<string>,
    constraints: set<string>)

  datatype Event = Event(
    id: int,
    title: string,
    requiredSkills: set<string>,
    languages: set<string>,
    slots: int,
    timeBlocks: set<string>,
    maxRadiusMiles: int,
    requiredCerts: set<string>)

  /** `Volunteer(id, name, skills, languages, availability, radius_miles)`: the two
      trailing fields take their `default_factory=set`. */
  function NewVolunteer(id: int, name: string, skills: set<string>, languages: set<string>,
                        availability: set<string>, radiusMiles: int): (v: Volunteer)
    ensures v.certifications == {} && v.constraints == {}
    ensures v.id == id && v.name == name && v.skills == skills && v.languages == languages
    ensures v.availability == availability && v.radiusMiles == radiusMiles
  {
    Volunteer(id, name, skills, languages, availability, radiusMiles, {}, {})
  }

  /** `Event(...)` without `requires` (here `requiredCerts`), which defaults to the empty set. */
  function NewEvent(id: int, title: string, requiredSkills: set<string>, languages: set<string>,
                    slots: int, timeBlocks: set<string>, maxRadiusMiles: int): (e: Event)
    ensures e.requiredCerts == {}
    ensures e.id == id && e.title == title && e.requiredSkills == requiredSkills
    ensures e.languages == languages && e.slots == slots && e.timeBlocks == timeBlocks
    ensures e.maxRadiusMiles == maxRadiusMiles
  {
    Event(id, title, requiredSkills, languages, slots, timeBlocks, maxRadiusMiles, {})
  }
}
