/**
 The application aggregate: a validated RDN together with an identifier, an
 optional homepage, an optional description and an optional kind. It checks
 nothing itself; the type of its RDN field admits only validated names.
 */
module Applications {
  import opened Wrappers
  import ReverseDomain

  /** Whether an application is a client or a server. */
  datatype ApplicationsType = Client | Server

  /** A 128-bit universally unique identifier, treated as an opaque token. */
  newtype Uuid = x: int | 0 <= x < 0x1_0000_0000_0000_0000_0000_0000_0000_0000

  /** `Url` stands for the homepage locator type, which this model leaves opaque. */
  datatype Application<Url> = Application(
    rdn: ReverseDomain.Rdn,
    id: Uuid,
    homepage: Option<Url>,
    description: Option<string>,
    appType: Option<ApplicationsType>)
  {
    function Rdn(): ReverseDomain.Rdn {
      rdn
    }

    function Id(): Uuid {
      id
    }

    function Homepage(): Option<Url> {
      homepage
    }

    function Description(): Option<string> {
      description
    }

    function AppType(): Option<ApplicationsType> {
      appType
    }
  }

  /**
   Builds an application from parts the caller has already validated. It
   cannot fail, and every accessor returns the part it was given.
   */
  function New<Url>(
    rdn: ReverseDomain.Rdn,
    id: Uuid,
    homepage: Option<Url>,
    description: Option<string>,
    appType: Option<ApplicationsType>): (app: Application<Url>)
    ensures app.Rdn() == rdn && app.Id() == id
    ensures app.Homepage() == homepage && app.Description() == description && app.AppType() == appType
  {
    Application(rdn, id, homepage, description, appType)
  }

  /** The RDN held by any application obeys the naming rules and survives a re-validation unchanged. */
  lemma RdnOfApplicationIsValid<Url>(app: Application<Url>)
    ensures ReverseDomain.IsValidName(app.Rdn().Name())
    ensures ReverseDomain.New(app.Rdn().Name()) == Ok(app.Rdn())
  {
  }

  /**
   An application built from a freshly validated name and no optional parts
   reports the original name, the given identifier and no optional parts.
   */
  lemma NewWithoutOptionalParts<Url>(name: string, id: Uuid)
    requires ReverseDomain.New(name).Ok?
    ensures var app := New<Url>(ReverseDomain.New(name).value, id, None, None, None);
      && app.Rdn().Name() == name
      && app.Id() == id
      && app.Homepage() == None && app.Description() == None && app.AppType() == None
  {
  }
}
