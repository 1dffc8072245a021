/** parse_resume after the PDF text is extracted: the profile fields read
    off the whole text, then the per-section parsers. */
module Resume {
  import opened Wrappers
  import opened Text
  import Grouping
  import Links
  import Sections
  import Experience
  import Education
  import Projects
  import Skills
  import Contact

  /** The `extracted_data` dictionary: a field is None where the key is
      never written; the links are the keys extract_links wrote. */
  datatype Profile = Profile(
    email: Option<string>,
    phone_number: Option<string>,
    headline: Option<string>,
    links: map<string, string>,
    work_experiences: Option<seq<Experience.Entry>>,
    educations: Option<seq<Education.Entry>>,
    projects: Option<seq<Projects.Entry>>,
    primary_skills: Option<string>,
    tools_libraries: Option<string>)

  /** `parser(sections[key])` when the section exists. */
  function IfSection<T>(sections: map<string, string>, key: string, parser: string -> T): Option<T> {
    if key in sections then Some(parser(sections[key])) else None
  }

  function ParseResume(text: string): Profile {
    var sections := Sections.SegmentSections(text);
    var skills := IfSection(sections, "skills", Skills.ParseSkills);
    Profile(
      Contact.Email(text),
      Contact.Phone(text),
      Contact.Headline(text),
      Links.ExtractLinks(text),
      IfSection(sections, "experience", Experience.ParseExperience),
      IfSection(sections, "education", Education.ParseEducation),
      IfSection(sections, "projects", Projects.ParseProjects),
      if skills.Some? then Some(skills.value.primary) else None,
      if skills.Some? then Some(skills.value.tools) else None)
  }

  /** The section `key` holds some lines: a non-empty block of that name. */
  predicate HasSection(text: string, key: string) {
    Sections.Filled(Sections.Blocks(Split(text, '\n'), Sections.HeaderKey), key)
  }

  /** The work experiences are present exactly when the experience section
      has lines, and are then its parse. */
  lemma ProfileExperience(text: string)
    ensures var p := ParseResume(text);
            && (p.work_experiences.Some? <==> HasSection(text, "experience"))
            && (p.work_experiences.Some? ==>
                  p.work_experiences.value == Experience.ParseExperience(Sections.SegmentSections(text)["experience"]))
  {
    var sections := Sections.SegmentSections(text);
    assert ParseResume(text).work_experiences == IfSection(sections, "experience", Experience.ParseExperience);
    Sections.SectionPresent(text, "experience");
  }

  /** The same for the education entries. */
  lemma ProfileEducation(text: string)
    ensures var p := ParseResume(text);
            && (p.educations.Some? <==> HasSection(text, "education"))
            && (p.educations.Some? ==>
                  p.educations.value == Education.ParseEducation(Sections.SegmentSections(text)["education"]))
  {
    var sections := Sections.SegmentSections(text);
    assert ParseResume(text).educations == IfSection(sections, "education", Education.ParseEducation);
    Sections.SectionPresent(text, "education");
  }

  /** The same for the projects. */
  lemma ProfileProjects(text: string)
    ensures var p := ParseResume(text);
            && (p.projects.Some? <==> HasSection(text, "projects"))
            && (p.projects.Some? ==>
                  p.projects.value == Projects.ParseProjects(Sections.SegmentSections(text)["projects"]))
  {
    var sections := Sections.SegmentSections(text);
    assert ParseResume(text).projects == IfSection(sections, "projects", Projects.ParseProjects);
    Sections.SectionPresent(text, "projects");
  }

  /** The two skill fields come and go together with the skills section: the
      ", "-joins of its first five skills and of the rest, which read back as
      the skill list cut after the fifth skill. */
  lemma ProfileSkills(text: string)
    ensures var p := ParseResume(text);
            && (p.primary_skills.Some? <==> HasSection(text, "skills"))
            && (p.tools_libraries.Some? <==> p.primary_skills.Some?)
            && (p.primary_skills.Some? ==>
                  var skills := Skills.SkillList(Sections.SegmentSections(text)["skills"]);
                  && p.primary_skills.value == Join(Skills.Take(skills, 5), ", ")
                  && p.tools_libraries.value == Join(Skills.Drop(skills, 5), ", ")
                  && Skills.ReadBucket(p.primary_skills.value) == Skills.Take(skills, 5)
                  && Skills.ReadBucket(p.tools_libraries.value) == Skills.Drop(skills, 5))
  {
    var sections := Sections.SegmentSections(text);
    Sections.SectionPresent(text, "skills");
    if "skills" in sections {
      Skills.SkillBuckets(sections["skills"]);
    }
  }

  /** The contact fields are read off the whole text, whatever the sections. */
  lemma ProfileContact(text: string)
    ensures var p := ParseResume(text);
            && (p.email.Some? <==> exists i: nat, a: nat, e: nat :: Contact.IsEmailMatch(text, i, a, e))
            && (p.phone_number.Some? <==> exists i: nat, e: nat :: i <= |text| && Contact.IsPhoneMatch(text, i, e))
            && (p.headline.Some? <==> |CleanLines(Split(text, '\n'))| > 1)
            && (forall k :: k in p.links ==> k in {"github_url", "linkedin_url", "behance_url", "twitter_url"})
  {
    Contact.EmailIsLeftmost(text);
    Contact.PhoneIsLeftmost(text);
  }

  /** Text without header lines yields no section fields. */
  lemma NoHeadersNoSections(text: string)
    requires forall k :: 0 <= k < |Split(text, '\n')| ==> Sections.HeaderKey(Split(text, '\n')[k]).None?
    ensures var p := ParseResume(text);
            p.work_experiences.None? && p.educations.None? && p.projects.None?
            && p.primary_skills.None? && p.tools_libraries.None?
  {
    Sections.NoHeaders(text);
    SectionFields(text);
    var sections := Sections.SegmentSections(text);
    assert sections == map[Sections.Preface := text];
    assert "skills" != Sections.Preface by {
      assert "skills"[0] != Sections.Preface[0];
    }
  }

  /** The section fields as read off the segmented text. */
  lemma SectionFields(text: string)
    ensures var p, sections := ParseResume(text), Sections.SegmentSections(text);
            && p.work_experiences == IfSection(sections, "experience", Experience.ParseExperience)
            && p.educations == IfSection(sections, "education", Education.ParseEducation)
            && p.projects == IfSection(sections, "projects", Projects.ParseProjects)
            && (p.primary_skills.Some? <==> "skills" in sections)
            && (p.tools_libraries.Some? <==> "skills" in sections)
  {
  }

  /** The empty text yields an empty profile. */
  lemma EmptyResume()
    ensures ParseResume("") == Profile(None, None, None, map[], None, None, None, None, None)
  {
    EmptySections();
    EmptyContact();
    EmptyLinks();
  }

  lemma EmptySections()
    ensures forall k :: k in Sections.SegmentSections("") ==> k == Sections.Preface
  {
    Sections.EmptyText();
  }

  lemma EmptyContact()
    ensures Contact.Email("").None? && Contact.Phone("").None? && Contact.Headline("").None?
  {
    assert Contact.EmailAt("", 0).None?;
    assert Contact.PhoneAt("", 0).None?;
    assert Split("", '\n') == [""];
    assert Strip("") == [];
  }

  lemma EmptyLinks()
    ensures Links.ExtractLinks("") == map[]
  {
    forall alts: seq<string> | forall a :: 0 <= a < |alts| ==> |alts[a]| > 0
      ensures Links.Find(alts, "").None?
    {
      assert Links.AltAt(alts, "", 0).None?;
    }
  }
}
